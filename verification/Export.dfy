/** The export of one person: find the accounts, choose one, write it and link it
    (mo_ldap_import_export/dataloaders.py:38-65, 134-342; mo_ldap_import_export/import_export.py:146-196, 233-312). */
module Export {
  import opened Wrappers
  import opened Discriminator

  type Person = nat
  type Uuid = nat
  type LinkId = nat

  /** An IT-user of the LDAP IT-system; its user key is meant to be the unique id of an account. */
  datatype ITUser = ITUser(uuid: LinkId, person: Person, userKey: string, active: bool)

  datatype ExportError =
    | NotUuids(keys: set<string>)
    | DuplicateKeys(keys: set<string>)
    | NoSuchEmployee
    | NoGoodAccount
    | Choosing(error: Discriminator.Error)

  /** How unique ids are read (`UUID(text)`) and written (`str(uuid)`). */
  datatype Format = Format(parse: string -> Option<Uuid>, show: Uuid -> string)

  ghost predicate ValidFormat(format: Format) {
    forall u: Uuid :: format.parse(format.show(u)) == Some(u)
  }

  // ---------------------------------------------------------------------------------------------
  // extract_unique_ldap_uuids
  // ---------------------------------------------------------------------------------------------

  function Malformed(format: Format, itUsers: seq<ITUser>): set<string> {
    set i <- itUsers | format.parse(i.userKey).None? :: i.userKey
  }

  /** The keys that two IT-users share. */
  function Duplicates(itUsers: seq<ITUser>): set<string> {
    set j | 0 <= j < |itUsers| && (exists i :: 0 <= i < j && itUsers[i].userKey == itUsers[j].userKey) ::
      itUsers[j].userKey
  }

  /** The dictionary from unique ids to IT-users; of two with one id the last stays. */
  function ByUuid(format: Format, itUsers: seq<ITUser>): map<Uuid, ITUser>
    requires Malformed(format, itUsers) == {}
  {
    if itUsers == [] then map[]
    else
      var last := itUsers[|itUsers| - 1];
      assert last.userKey !in Malformed(format, itUsers);
      assert Malformed(format, itUsers[..|itUsers| - 1]) <= Malformed(format, itUsers);
      ByUuid(format, itUsers[..|itUsers| - 1])[format.parse(last.userKey).value := last]
  }

  function ExtractUniqueLdapUuids(format: Format, itUsers: seq<ITUser>): Result<map<Uuid, ITUser>, ExportError> {
    var malformed := Malformed(format, itUsers);
    var duplicates := Duplicates(itUsers);
    if malformed != {} then Err(NotUuids(malformed))
    else if duplicates != {} then Err(DuplicateKeys(duplicates))
    else Ok(ByUuid(format, itUsers))
  }

  ghost predicate SameUuid(format: Format, itUsers: seq<ITUser>, i: nat, j: nat)
    requires i < |itUsers| && j < |itUsers|
  {
    format.parse(itUsers[i].userKey) == format.parse(itUsers[j].userKey)
  }

  /** No two IT-users name one account, however they spell its id. */
  ghost predicate NoUuidTwice(format: Format, itUsers: seq<ITUser>) {
    forall i, j :: 0 <= i < j < |itUsers| ==> !SameUuid(format, itUsers, i, j)
  }

  /** Whether `at` finds every IT-user of the list under its own id, and nothing else. */
  ghost predicate IsIndex(format: Format, itUsers: seq<ITUser>, at: map<Uuid, ITUser>) {
    && |at| == |itUsers|
    && (forall u <- at :: at[u] in itUsers && format.parse(at[u].userKey) == Some(u))
    && forall i <- itUsers :: format.parse(i.userKey).Some? && format.parse(i.userKey).value in at
                              && at[format.parse(i.userKey).value] == i
  }

  lemma DuplicatesIff(itUsers: seq<ITUser>)
    ensures Duplicates(itUsers) == {} <==>
      forall i, j :: 0 <= i < j < |itUsers| ==> itUsers[i].userKey != itUsers[j].userKey
  {
    if i, j :| 0 <= i < j < |itUsers| && itUsers[i].userKey == itUsers[j].userKey {
      assert itUsers[j].userKey in Duplicates(itUsers);
    }
  }

  /** The dictionary knows the ids of the list, and under each the last IT-user with that id. */
  lemma {:induction false} ByUuidIs(format: Format, itUsers: seq<ITUser>, u: Uuid)
    requires Malformed(format, itUsers) == {}
    ensures u in ByUuid(format, itUsers) <==>
      exists i :: 0 <= i < |itUsers| && format.parse(itUsers[i].userKey) == Some(u)
    ensures u in ByUuid(format, itUsers) ==>
      exists i :: 0 <= i < |itUsers| && ByUuid(format, itUsers)[u] == itUsers[i]
        && format.parse(itUsers[i].userKey) == Some(u)
        && forall j :: i < j < |itUsers| ==> format.parse(itUsers[j].userKey) != Some(u)
    decreases |itUsers|
  {
    if itUsers != [] {
      var k := |itUsers| - 1;
      assert itUsers[k].userKey !in Malformed(format, itUsers);
      assert Malformed(format, itUsers[..k]) <= Malformed(format, itUsers);
      ByUuidIs(format, itUsers[..k], u);
    }
  }

  lemma {:induction false} ByUuidSize(format: Format, itUsers: seq<ITUser>)
    requires Malformed(format, itUsers) == {} && NoUuidTwice(format, itUsers)
    ensures |ByUuid(format, itUsers)| == |itUsers|
    decreases |itUsers|
  {
    if itUsers != [] {
      var k := |itUsers| - 1;
      var init := itUsers[..k];
      assert itUsers[k].userKey !in Malformed(format, itUsers);
      assert Malformed(format, init) <= Malformed(format, itUsers);
      assert NoUuidTwice(format, init) by {
        forall i, j | 0 <= i < j < |init| ensures !SameUuid(format, init, i, j) {
          assert !SameUuid(format, itUsers, i, j);
        }
      }
      ByUuidSize(format, init);
      var u := format.parse(itUsers[k].userKey).value;
      ByUuidIs(format, init, u);
      forall i | 0 <= i < k ensures format.parse(init[i].userKey) != Some(u) {
        assert !SameUuid(format, itUsers, i, k);
      }
    }
  }

  lemma IndexOfDistinct(format: Format, itUsers: seq<ITUser>)
    requires Malformed(format, itUsers) == {} && NoUuidTwice(format, itUsers)
    ensures IsIndex(format, itUsers, ByUuid(format, itUsers))
  {
    hide ByUuid;
    ByUuidSize(format, itUsers);
    var at := ByUuid(format, itUsers);
    forall u <- at ensures at[u] in itUsers && format.parse(at[u].userKey) == Some(u) {
      ByUuidIs(format, itUsers, u);
    }
    forall k | 0 <= k < |itUsers|
      ensures format.parse(itUsers[k].userKey).Some? && format.parse(itUsers[k].userKey).value in at
      ensures at[format.parse(itUsers[k].userKey).value] == itUsers[k]
    {
      assert itUsers[k].userKey !in Malformed(format, itUsers);
      var u := format.parse(itUsers[k].userKey).value;
      ByUuidIs(format, itUsers, u);
      var i :| 0 <= i < |itUsers| && at[u] == itUsers[i] && format.parse(itUsers[i].userKey) == Some(u);
      assert SameUuid(format, itUsers, i, k) && SameUuid(format, itUsers, k, i);
    }
  }

  /** Extraction fails exactly on a malformed or a repeated key, and otherwise it indexes the IT-users
      one to one exactly if no two of them spell the same id differently. */
  lemma ExtractIsIndexIff(format: Format, itUsers: seq<ITUser>)
    ensures ExtractUniqueLdapUuids(format, itUsers).Ok? <==>
            && (forall i <- itUsers :: format.parse(i.userKey).Some?)
            && forall i, j :: 0 <= i < j < |itUsers| ==> itUsers[i].userKey != itUsers[j].userKey
    ensures ExtractUniqueLdapUuids(format, itUsers).Ok? ==>
            (IsIndex(format, itUsers, ExtractUniqueLdapUuids(format, itUsers).value) <==> NoUuidTwice(format, itUsers))
  {
    hide ByUuid;
    assert Malformed(format, itUsers) == {} <==> forall i <- itUsers :: format.parse(i.userKey).Some? by {
      forall i <- itUsers | format.parse(i.userKey).None? ensures i.userKey in Malformed(format, itUsers) {}
    }
    DuplicatesIff(itUsers);
    if Malformed(format, itUsers) == {} && Duplicates(itUsers) == {} {
      if NoUuidTwice(format, itUsers) {
        IndexOfDistinct(format, itUsers);
      } else {
        var i, j :| 0 <= i < j < |itUsers| && SameUuid(format, itUsers, i, j);
        assert itUsers[i] in itUsers && itUsers[j] in itUsers;
        assert itUsers[i].userKey != itUsers[j].userKey;
      }
    }
  }

  /** Keys as the export writes them spell every id in one way. */
  lemma WrittenKeysAreIndexed(format: Format, itUsers: seq<ITUser>, ids: seq<Uuid>)
    requires ValidFormat(format) && |ids| == |itUsers|
    requires forall i | 0 <= i < |ids| :: itUsers[i].userKey == format.show(ids[i])
    requires forall i, j :: 0 <= i < j < |ids| ==> ids[i] != ids[j]
    ensures ExtractUniqueLdapUuids(format, itUsers).Ok?
    ensures IsIndex(format, itUsers, ExtractUniqueLdapUuids(format, itUsers).value)
  {
    hide IsIndex, ExtractUniqueLdapUuids;
    forall i, j | 0 <= i < j < |itUsers|
      ensures !SameUuid(format, itUsers, i, j) && itUsers[i].userKey != itUsers[j].userKey
    {
      assert format.parse(itUsers[i].userKey) == Some(ids[i]) && format.parse(itUsers[j].userKey) == Some(ids[j]);
    }
    ExtractIsIndexIff(format, itUsers);
  }

  // How Python's `UUID(text)` reads a text: hyphens do not count, nor does the case of the digits.

  function WithoutHyphens(text: string): string {
    if text == "" then "" else (if text[0] == '-' then "" else [text[0]]) + WithoutHyphens(text[1..])
  }

  function HexDigit(c: char): Option<nat> {
    if '0' <= c <= '9' then Some((c - '0') as nat)
    else if 'a' <= c <= 'f' then Some((c - 'a') as nat + 10)
    else if 'A' <= c <= 'F' then Some((c - 'A') as nat + 10)
    else None
  }

  function HexValue(digits: string): nat {
    if digits == "" then 0
    else
      var last := HexDigit(digits[|digits| - 1]);
      16 * HexValue(digits[..|digits| - 1]) + if last.Some? then last.value else 0
  }

  function ParseUuid(text: string): Option<Uuid> {
    var digits := WithoutHyphens(text);
    if |digits| == 32 && forall c <- digits :: HexDigit(c).Some? then Some(HexValue(digits)) else None
  }

  lemma {:induction false} SameDigitsSameValue(a: string, b: string)
    requires |a| == |b| && forall i :: 0 <= i < |a| ==> HexDigit(a[i]) == HexDigit(b[i])
    ensures HexValue(a) == HexValue(b)
    decreases |a|
  {
    if a != "" {
      SameDigitsSameValue(a[..|a| - 1], b[..|b| - 1]);
    }
  }

  lemma {:induction false} NoHyphens(text: string)
    requires '-' !in text
    ensures WithoutHyphens(text) == text
  {
    if text != "" {
      NoHyphens(text[1..]);
    }
  }

  /** 32 digits that differ in case only are read as one id. */
  lemma CaseDoesNotCount(a: string, b: string)
    requires |a| == |b| == 32
    requires forall i :: 0 <= i < 32 ==> HexDigit(a[i]).Some? && HexDigit(a[i]) == HexDigit(b[i])
    ensures ParseUuid(a).Some? && ParseUuid(a) == ParseUuid(b)
  {
    NoHyphens(a);
    NoHyphens(b);
    SameDigitsSameValue(a, b);
  }

  function Zeros(n: nat): string {
    seq(n, _ => '0')
  }

  /** Two IT-users that spell one id differently: extraction succeeds, and only the second is in the dictionary. */
  lemma SpellingsCollapse(format: Format, p: Person)
    requires format.parse == ParseUuid
    ensures var i, j := ITUser(1, p, Zeros(31) + "a", true), ITUser(2, p, Zeros(31) + "A", true);
      exists u: Uuid :: ExtractUniqueLdapUuids(format, [i, j]) == Ok(map[u := j])
  {
    hide ParseUuid;
    var a, b := Zeros(31) + "a", Zeros(31) + "A";
    var i, j := ITUser(1, p, a, true), ITUser(2, p, b, true);
    CaseDoesNotCount(a, b);
    assert a[31] != b[31];
    assert Malformed(format, [i, j]) == {} && Malformed(format, [i]) == {};
    DuplicatesIff([i, j]);
    var u := ParseUuid(b).value;
    assert [i, j][..1] == [i] && [i][..0] == [];
    assert ByUuid(format, [i]) == map[u := i];
    assert ByUuid(format, [i, j]) == map[u := i][u := j] == map[u := j];
    assert ExtractUniqueLdapUuids(format, [i, j]) == Ok(map[u := j]);
  }

  // ---------------------------------------------------------------------------------------------
  // The two stores
  // ---------------------------------------------------------------------------------------------

  ghost predicate Distinct<T>(xs: seq<T>) {
    forall i, j :: 0 <= i < j < |xs| ==> xs[i] != xs[j]
  }

  /** The elements of a set in whatever order the server returns them. */
  method InSomeOrder<T(==)>(elements: set<T>) returns (listed: seq<T>)
    ensures Distinct(listed) && forall x :: x in listed <==> x in elements
  {
    listed := [];
    var rest := elements;
    while rest != {}
      invariant Distinct(listed) && rest <= elements
      invariant forall x :: x in listed <==> x in elements && x !in rest
      decreases |rest|
    {
      var x :| x in rest;
      listed := listed + [x];
      rest := rest - {x};
    }
  }

  /** The part of MO the export works on. */
  class MOAPI {
    var itUsers: map<LinkId, ITUser>
    const employees: map<Person, Option<string>>
    const hasItSystem: bool

    ghost predicate Valid()
      reads this
    {
      forall l <- itUsers :: itUsers[l].uuid == l
    }

    constructor (itUsers: map<LinkId, ITUser>, employees: map<Person, Option<string>>, hasItSystem: bool)
      requires forall l <- itUsers :: itUsers[l].uuid == l
      ensures Valid() && this.itUsers == itUsers && this.employees == employees && this.hasItSystem == hasItSystem
    {
      this.itUsers, this.employees, this.hasItSystem := itUsers, employees, hasItSystem;
    }

    method LoadMoEmployeeItUsers(p: Person) returns (loaded: seq<ITUser>)
      requires Valid()
      ensures Distinct(loaded)
      ensures forall i :: i in loaded <==> i.uuid in ActiveOf(itUsers, p) && itUsers[i.uuid] == i
    {
      loaded := InSomeOrder(set l <- itUsers | itUsers[l].person == p && itUsers[l].active :: itUsers[l]);
    }

    method TerminateItUser(l: LinkId)
      requires Valid() && l in itUsers
      modifies this
      ensures Valid() && itUsers == old(itUsers[l := itUsers[l].(active := false)])
    {
      itUsers := itUsers[l := itUsers[l].(active := false)];
    }

    method TerminateItUsers(ended: set<LinkId>)
      requires Valid() && ended <= itUsers.Keys
      modifies this
      ensures Valid() && itUsers == Ended(old(itUsers), ended)
    {
      var done: set<LinkId> := {};
      while done != ended
        invariant done <= ended && Valid() && itUsers == Ended(old(itUsers), done)
        decreases ended - done
      {
        var rest := ended - done;
        assert rest != {};
        var l :| l in rest;
        TerminateItUser(l);
        done := done + {l};
      }
    }

    method CreateItUser(l: LinkId, p: Person, userKey: string)
      requires Valid() && l !in itUsers
      modifies this
      ensures Valid() && itUsers == old(itUsers)[l := ITUser(l, p, userKey, true)]
    {
      itUsers := itUsers[l := ITUser(l, p, userKey, true)];
    }
  }

  /** The accounts of the directory by unique id. */
  class LDAPAPI {
    var accounts: map<Uuid, LdapObject>
    const cprAttribute: Option<string>
    /** Whether the searches by CPR number cover the account: its place and its object class. */
    const isSearched: LdapObject -> bool

    /** No two accounts have one name. */
    ghost predicate Valid()
      reads this
    {
      forall u <- accounts, v <- accounts :: accounts[u].dn == accounts[v].dn ==> u == v
    }

    constructor (accounts: map<Uuid, LdapObject>, cprAttribute: Option<string>, isSearched: LdapObject -> bool)
      requires forall u <- accounts, v <- accounts :: accounts[u].dn == accounts[v].dn ==> u == v
      ensures Valid() && this.accounts == accounts && this.cprAttribute == cprAttribute && this.isSearched == isSearched
    {
      this.accounts, this.cprAttribute, this.isSearched := accounts, cprAttribute, isSearched;
    }

    /** What the accounts come back as when they are read for some attributes. */
    function Read(attributes: set<string>): (loads: map<Uuid, LdapObject>)
      reads this
      ensures loads.Keys == accounts.Keys
    {
      map u <- accounts :: Loaded(accounts[u], attributes)
    }

    /** Whether the search by CPR number finds the account. */
    predicate FoundByCpr(cpr: Option<string>, o: LdapObject) {
      && cpr.Some? && cprAttribute.Some? && isSearched(o) && cprAttribute.value in o.fields
      && match o.fields[cprAttribute.value]
         case Text(text) => text == cpr.value
         case Many(texts) => cpr.value in texts
         case Number(_) => false
    }

    /** Writes an account; the directory refuses a name that another account has. */
    method Write(u: Uuid, o: LdapObject) returns (ok: bool)
      requires Valid()
      modifies this
      ensures Valid() && ok == NameFree(old(accounts), u, o)
      ensures accounts == if ok then old(accounts)[u := o] else old(accounts)
    {
      ok := NameFree(accounts, u, o);
      if ok {
        accounts := accounts[u := o];
      }
    }
  }

  /** The attribute holds the text, alone or among others. */
  ghost predicate HoldsText(o: LdapObject, a: string, text: string) {
    a in o.fields && (o.fields[a] == Text(text) || exists i, texts ::
      o.fields[a] == Many(texts) && 0 <= i < |texts| && texts[i] == text)
  }

  function ActiveOf(itUsers: map<LinkId, ITUser>, p: Person): set<LinkId> {
    set l <- itUsers | itUsers[l].person == p && itUsers[l].active
  }

  predicate LinksTo(format: Format, itUsers: map<LinkId, ITUser>, p: Person, u: Uuid) {
    exists l <- ActiveOf(itUsers, p) :: format.parse(itUsers[l].userKey) == Some(u)
  }

  /** Every active link of the person names an account, and no two name the same one. */
  ghost predicate WellKeyed(format: Format, itUsers: map<LinkId, ITUser>, p: Person) {
    && (forall l <- ActiveOf(itUsers, p) :: format.parse(itUsers[l].userKey).Some?)
    && (forall l <- ActiveOf(itUsers, p), m <- ActiveOf(itUsers, p) ::
          format.parse(itUsers[l].userKey) == format.parse(itUsers[m].userKey) ==> l == m)
  }

  predicate IsGone(format: Format, itUsers: map<LinkId, ITUser>, p: Person, accounts: set<Uuid>, l: LinkId)
    requires l in itUsers
  {
    l in ActiveOf(itUsers, p) && format.parse(itUsers[l].userKey).Some?
      && format.parse(itUsers[l].userKey).value !in accounts
  }

  /** The links after those of the person whose accounts are gone have been terminated. */
  function WithoutGone(format: Format, itUsers: map<LinkId, ITUser>, p: Person,
                       accounts: set<Uuid>): map<LinkId, ITUser>
  {
    map l <- itUsers :: if IsGone(format, itUsers, p, accounts, l) then itUsers[l].(active := false) else itUsers[l]
  }

  function Ended(itUsers: map<LinkId, ITUser>, ended: set<LinkId>): map<LinkId, ITUser> {
    map l <- itUsers :: if l in ended then itUsers[l].(active := false) else itUsers[l]
  }

  /** A link is ended exactly if it is an active one of the person to an account that does not exist; all
      else about the links stays as it was. */
  lemma WithoutGoneIs(format: Format, itUsers: map<LinkId, ITUser>, p: Person, accounts: set<Uuid>, l: LinkId)
    requires l in itUsers
    ensures WithoutGone(format, itUsers, p, accounts).Keys == itUsers.Keys
    ensures var was, after := itUsers[l], WithoutGone(format, itUsers, p, accounts)[l];
      && after == was.(active := after.active)
      && (after.active != was.active <==>
        was.active && was.person == p && exists u :: format.parse(was.userKey) == Some(u) && u !in accounts)
  {
  }

  // ---------------------------------------------------------------------------------------------
  // Finding accounts
  // ---------------------------------------------------------------------------------------------

  /** Lists the active links of a person. */
  ghost predicate ListsActive(itUsers: map<LinkId, ITUser>, p: Person, listed: seq<ITUser>) {
    Distinct(listed) && forall i :: i in listed <==> i.uuid in ActiveOf(itUsers, p) && itUsers[i.uuid] == i
  }

  lemma ListedDistinctly(format: Format, itUsers: map<LinkId, ITUser>, p: Person, listed: seq<ITUser>)
    requires (forall l <- itUsers :: itUsers[l].uuid == l) && ListsActive(itUsers, p, listed)
    requires WellKeyed(format, itUsers, p)
    ensures ExtractUniqueLdapUuids(format, listed).Ok?
      && IsIndex(format, listed, ExtractUniqueLdapUuids(format, listed).value)
  {
    hide IsIndex, ExtractUniqueLdapUuids;
    forall i | 0 <= i < |listed| ensures format.parse(listed[i].userKey).Some? {
      assert listed[i] in listed;
    }
    forall i, j | 0 <= i < j < |listed|
      ensures !SameUuid(format, listed, i, j) && listed[i].userKey != listed[j].userKey
    {
      assert listed[i] in listed && listed[j] in listed;
      assert listed[i].uuid != listed[j].uuid;
    }
    ExtractIsIndexIff(format, listed);
  }

  /** The links of the dictionary whose accounts are gone. */
  function Missing(byUuid: map<Uuid, ITUser>, accounts: set<Uuid>): set<LinkId> {
    set u <- byUuid | u !in accounts :: byUuid[u].uuid
  }

  /** Soundness of the dictionary, and completeness if the links are well keyed. */
  lemma ExtractedLinks(format: Format, itUsers: map<LinkId, ITUser>, p: Person, listed: seq<ITUser>)
    requires (forall l <- itUsers :: itUsers[l].uuid == l) && ListsActive(itUsers, p, listed)
    ensures WellKeyed(format, itUsers, p) ==> ExtractUniqueLdapUuids(format, listed).Ok?
    ensures ExtractUniqueLdapUuids(format, listed).Ok? ==>
      forall u <- ByUuid(format, listed) :: var i := ByUuid(format, listed)[u];
        i.uuid in ActiveOf(itUsers, p) && itUsers[i.uuid] == i && format.parse(i.userKey) == Some(u)
    ensures WellKeyed(format, itUsers, p) ==>
      forall l <- ActiveOf(itUsers, p) :: format.parse(itUsers[l].userKey).Some?
        && format.parse(itUsers[l].userKey).value in ByUuid(format, listed)
        && ByUuid(format, listed)[format.parse(itUsers[l].userKey).value].uuid == l
  {
    hide ByUuid;
    if ExtractUniqueLdapUuids(format, listed).Ok? {
      forall u <- ByUuid(format, listed) ensures var i := ByUuid(format, listed)[u];
        i.uuid in ActiveOf(itUsers, p) && itUsers[i.uuid] == i && format.parse(i.userKey) == Some(u)
      {
        ByUuidIs(format, listed, u);
      }
    }
    if WellKeyed(format, itUsers, p) {
      ListedDistinctly(format, itUsers, p, listed);
      forall l <- ActiveOf(itUsers, p) ensures format.parse(itUsers[l].userKey).Some?
        && format.parse(itUsers[l].userKey).value in ByUuid(format, listed)
        && ByUuid(format, listed)[format.parse(itUsers[l].userKey).value].uuid == l
      {
        assert itUsers[l] in listed;
      }
    }
  }

  /** The accounts of the dictionary that exist. */
  function Found(byUuid: map<Uuid, ITUser>, accounts: map<Uuid, LdapObject>): set<LdapObject> {
    set u <- byUuid | u in accounts :: accounts[u]
  }

  ghost predicate OnlyLinked(format: Format, itUsers: map<LinkId, ITUser>, p: Person,
                             accounts: map<Uuid, LdapObject>, objects: seq<LdapObject>)
  {
    forall o <- objects :: exists u :: u in accounts && accounts[u] == o && LinksTo(format, itUsers, p, u)
  }

  ghost predicate AllLinked(format: Format, itUsers: map<LinkId, ITUser>, p: Person,
                            accounts: map<Uuid, LdapObject>, objects: seq<LdapObject>)
  {
    forall u <- accounts :: LinksTo(format, itUsers, p, u) ==> accounts[u] in objects
  }

  /** Nothing but links of the person to accounts that are gone has been terminated. */
  ghost predicate OnlyGoneEnded(format: Format, itUsers: map<LinkId, ITUser>, p: Person, accounts: set<Uuid>,
                                after: map<LinkId, ITUser>)
  {
    && after.Keys == itUsers.Keys
    && forall l <- itUsers :: after[l] == itUsers[l]
                              || (IsGone(format, itUsers, p, accounts, l) && after[l] == itUsers[l].(active := false))
  }

  /** What the dictionary of a person's links is good for. */
  ghost predicate IsDictionary(format: Format, itUsers: map<LinkId, ITUser>, p: Person, byUuid: map<Uuid, ITUser>) {
    forall u <- byUuid :: var i := byUuid[u];
      i.uuid in ActiveOf(itUsers, p) && itUsers[i.uuid] == i && format.parse(i.userKey) == Some(u)
  }

  ghost predicate IsComplete(format: Format, itUsers: map<LinkId, ITUser>, p: Person, byUuid: map<Uuid, ITUser>) {
    forall l <- ActiveOf(itUsers, p) :: format.parse(itUsers[l].userKey).Some?
      && format.parse(itUsers[l].userKey).value in byUuid && byUuid[format.parse(itUsers[l].userKey).value].uuid == l
  }

  lemma FoundLinks(format: Format, itUsers: map<LinkId, ITUser>, p: Person, byUuid: map<Uuid, ITUser>)
    requires IsDictionary(format, itUsers, p, byUuid)
    ensures forall u <- byUuid :: LinksTo(format, itUsers, p, u)
    ensures IsComplete(format, itUsers, p, byUuid) ==> forall u :: LinksTo(format, itUsers, p, u) ==> u in byUuid
  {
  }

  lemma EndedLinks(format: Format, itUsers: map<LinkId, ITUser>, p: Person, byUuid: map<Uuid, ITUser>,
                   accounts: set<Uuid>)
    requires IsDictionary(format, itUsers, p, byUuid)
    ensures Missing(byUuid, accounts) <= itUsers.Keys
    ensures OnlyGoneEnded(format, itUsers, p, accounts, Ended(itUsers, Missing(byUuid, accounts)))
    ensures IsComplete(format, itUsers, p, byUuid) ==>
      Ended(itUsers, Missing(byUuid, accounts)) == WithoutGone(format, itUsers, p, accounts)
  {
    forall l <- Missing(byUuid, accounts) ensures l in itUsers && IsGone(format, itUsers, p, accounts, l) {
    }
    if IsComplete(format, itUsers, p, byUuid) {
      forall l <- itUsers ensures l in Missing(byUuid, accounts) <==> IsGone(format, itUsers, p, accounts, l) {
      }
    }
  }

  lemma FoundAndEnded(format: Format, itUsers: map<LinkId, ITUser>, p: Person, listed: seq<ITUser>, accounts: set<Uuid>)
    requires (forall l <- itUsers :: itUsers[l].uuid == l) && ListsActive(itUsers, p, listed)
    requires ExtractUniqueLdapUuids(format, listed).Ok?
    ensures var byUuid := ByUuid(format, listed);
      && (forall u <- byUuid :: LinksTo(format, itUsers, p, u))
      && Missing(byUuid, accounts) <= itUsers.Keys
      && OnlyGoneEnded(format, itUsers, p, accounts, Ended(itUsers, Missing(byUuid, accounts)))
      && (WellKeyed(format, itUsers, p) ==>
            && (forall u :: LinksTo(format, itUsers, p, u) ==> u in byUuid)
            && Ended(itUsers, Missing(byUuid, accounts)) == WithoutGone(format, itUsers, p, accounts))
  {
    hide ByUuid, ListsActive;
    ExtractedLinks(format, itUsers, p, listed);
    var byUuid := ByUuid(format, listed);
    assert IsDictionary(format, itUsers, p, byUuid);
    assert WellKeyed(format, itUsers, p) ==> IsComplete(format, itUsers, p, byUuid);
    hide IsDictionary, IsComplete, Missing, OnlyGoneEnded, WithoutGone, WellKeyed, LinksTo;
    FoundLinks(format, itUsers, p, byUuid);
    EndedLinks(format, itUsers, p, byUuid, accounts);
  }

  lemma SameObjects(format: Format, itUsers: map<LinkId, ITUser>, p: Person, accounts: map<Uuid, LdapObject>,
                    byUuid: map<Uuid, ITUser>, objects: seq<LdapObject>)
    requires forall o :: o in objects <==> o in Found(byUuid, accounts)
    requires forall u <- byUuid :: LinksTo(format, itUsers, p, u)
    ensures OnlyLinked(format, itUsers, p, accounts, objects)
    ensures (forall u :: LinksTo(format, itUsers, p, u) ==> u in byUuid) ==>
      AllLinked(format, itUsers, p, accounts, objects)
  {
    hide LinksTo;
  }

  /** The candidates without those whose name an earlier one has (`unique_everseen`). */
  function UniqueByDn(objects: seq<LdapObject>): (unique: seq<LdapObject>)
    ensures forall o <- unique :: o in objects
    ensures Dns(unique) == Dns(objects)
    ensures Coherent(unique)
  {
    if objects == [] then []
    else
      var k := |objects| - 1;
      var unique := UniqueByDn(objects[..k]);
      assert objects == objects[..k] + [objects[k]];
      assert Dns(objects) == Dns(objects[..k]) + {objects[k].dn};
      if objects[k].dn in Dns(unique) then unique
      else
        assert Dns(unique + [objects[k]]) == Dns(unique) + {objects[k].dn};
        unique + [objects[k]]
  }

  /** Of the candidates with one name the first is kept. */
  lemma {:induction false} UniqueKeepsFirst(objects: seq<LdapObject>, i: nat)
    requires i < |objects| && objects[i].dn !in Dns(objects[..i])
    ensures objects[i] in UniqueByDn(objects)
    decreases |objects|
  {
    var k := |objects| - 1;
    hide Dns;
    assert Dns(UniqueByDn(objects[..k])) == Dns(objects[..k]);
    if i < k {
      assert objects[..k][..i] == objects[..i];
      UniqueKeepsFirst(objects[..k], i);
    }
  }

  /** Candidates read from a directory without double names are all kept. */
  lemma UniqueKeepsAll(accounts: map<Uuid, LdapObject>, objects: seq<LdapObject>, o: LdapObject)
    requires forall u <- accounts, v <- accounts :: accounts[u].dn == accounts[v].dn ==> u == v
    requires forall q <- objects :: q in accounts.Values
    requires o in objects
    ensures o in UniqueByDn(objects)
  {
    var unique := UniqueByDn(objects);
    assert o.dn in Dns(unique);
    var q :| q in unique && q.dn == o.dn;
    var v :| v in accounts && accounts[v] == q;
    var u :| u in accounts && accounts[u] == o;
  }

  /** What `_find_best_dn` answers for given candidates; no name at all asks for an account to be created. */
  ghost function BestDn(settings: Settings, candidates: seq<LdapObject>): Result<Option<Dn>, ExportError> {
    match FilterDns(settings, candidates)
    case Err(e) => Err(Choosing(e))
    case Ok(passing) =>
      if passing == [] then Ok(None)
      else match Selected(settings, passing)
        case Err(e) => Err(Choosing(e))
        case Ok(None) => Err(NoGoodAccount)
        case Ok(Some(dn)) => Ok(Some(dn))
  }

  /** What is rendered for a person and an account, or for an account to be created: nothing, or the
      account as the writer leaves it. */
  type Rendering = Option<LdapObject> -> Option<LdapObject>

  /** What the caller of a handling decides besides the stores: whether an account may be created, and
      the fresh ids a created account and link would get. */
  datatype Request = Request(settings: Settings, render: Rendering, mayCreate: bool, newAccount: Uuid, newLink: LinkId)

  datatype Outcome = Skipped | Failed(error: ExportError) | NoCorrelationKey | NameTaken | Wrote(account: Uuid)

  /** No two active IT-users of one person have the same user key. */
  ghost predicate KeysUnique(itUsers: map<LinkId, ITUser>) {
    forall l <- itUsers, m <- itUsers ::
      && itUsers[l].active && itUsers[m].active
      && itUsers[l].person == itUsers[m].person && itUsers[l].userKey == itUsers[m].userKey
      ==> l == m
  }

  predicate IsKey(itUsers: map<LinkId, ITUser>, p: Person, userKey: string, l: LinkId) {
    l in itUsers && itUsers[l].active && itUsers[l].person == p && itUsers[l].userKey == userKey
  }

  /** Whether the discriminator filter turns the account down. */
  predicate Refused(settings: Settings, o: LdapObject) {
    settings.filter.Some? && MappingError([o], settings.fields) == None
      && !Passes(settings.filter.value, settings.fields, o)
  }

  /** That is, the account has all fields and the filter does not say yes to them. */
  lemma RefusedIff(settings: Settings, o: LdapObject)
    ensures Refused(settings, o) <==>
      settings.filter.Some? && AllMapped([o], settings.fields)
        && !Accepts(settings.filter.value, settings.fields, o)
  {
    MappingErrorIs([o], settings.fields);
    if AllMapped([o], settings.fields) && settings.filter.Some? {
      assert o in [o];
      PassesIff(settings.filter.value, settings.fields, o);
    }
    hide Passes, Accepts, AllMapped, MappingError;
  }

  lemma FilterIsEmptyIff(settings: Settings, objects: seq<LdapObject>)
    ensures FilterDns(settings, objects) == Ok([]) <==> forall o <- objects :: Refused(settings, o)
  {
    hide Passing;
    if settings.filter.Some? {
      MappingErrorIff(objects, settings.fields);
      forall o <- objects ensures MappingError([o], settings.fields) == None <==> !Unmapped(o, settings.fields) {
        MappingErrorIff([o], settings.fields);
        assert [o][0] == o;
      }
      hide MappingError, Passes, Unmapped;
      var passing := Passing(settings.filter.value, settings.fields, objects);
      assert passing != [] ==> passing[0] in objects;
      if o :| o in objects && !Refused(settings, o) && MappingError(objects, settings.fields) == None {
        assert o in passing;
      }
    } else if objects != [] {
      assert objects[0] in objects;
    }
  }

  predicate Unmapped(o: LdapObject, fields: seq<string>) {
    exists f <- fields :: f !in o.fields || ObjectToDiscriminator(o, f).Err?
  }

  lemma MappingErrorIff(objects: seq<LdapObject>, fields: seq<string>)
    ensures MappingError(objects, fields) == None <==> forall o <- objects :: !Unmapped(o, fields)
  {
  }

  /** At most one active link between a person and an account, whatever is linked. */
  lemma LinkingKeepsKeysUnique(itUsers: map<LinkId, ITUser>, p: Person, userKey: string, newLink: LinkId)
    requires KeysUnique(itUsers) && newLink !in itUsers && !(exists l :: IsKey(itUsers, p, userKey, l))
    ensures KeysUnique(itUsers[newLink := ITUser(newLink, p, userKey, true)])
  {
    assert forall l <- itUsers :: !IsKey(itUsers, p, userKey, l);
  }

  lemma EndingKeepsKeysUnique(format: Format, itUsers: map<LinkId, ITUser>, p: Person, accounts: set<Uuid>,
                              after: map<LinkId, ITUser>)
    requires KeysUnique(itUsers) && OnlyGoneEnded(format, itUsers, p, accounts, after)
    ensures KeysUnique(after)
  {
    hide IsGone;
  }

  /** Nobody else's links have changed. */
  ghost predicate OthersKept(itUsers: map<LinkId, ITUser>, p: Person, after: map<LinkId, ITUser>) {
    forall l <- itUsers :: itUsers[l].person != p ==> l in after && after[l] == itUsers[l]
  }

  lemma CreationIff(settings: Settings, candidates: seq<LdapObject>)
    ensures BestDn(settings, candidates) == Ok(None) <==> forall o <- candidates :: Refused(settings, o)
  {
    hide Refused, Selected, FilterDns;
    FilterIsEmptyIff(settings, candidates);
  }

  lemma OnlyGoneKeepsOthers(format: Format, itUsers: map<LinkId, ITUser>, p: Person, accounts: set<Uuid>,
                            after: map<LinkId, ITUser>)
    requires OnlyGoneEnded(format, itUsers, p, accounts, after)
    ensures after.Keys == itUsers.Keys && OthersKept(itUsers, p, after)
  {
  }

  predicate NameFree(accounts: map<Uuid, LdapObject>, u: Uuid, o: LdapObject) {
    forall v <- accounts :: accounts[v].dn == o.dn ==> v == u
  }

  /** The links after the person has been linked to the account, unless it is or the IT-system is missing. */
  ghost function WithLink(format: Format, itUsers: map<LinkId, ITUser>, hasItSystem: bool, p: Person, u: Uuid,
                          newLink: LinkId)
    : map<LinkId, ITUser>
  {
    if !hasItSystem || exists l :: IsKey(itUsers, p, format.show(u), l) then itUsers
    else itUsers[newLink := ITUser(newLink, p, format.show(u), true)]
  }

  /** The links after a handling: those to accounts that are gone are ended, and one is made to the
      account that was written, unless it is there. */
  ghost function LinksAfter(format: Format, itUsers: map<LinkId, ITUser>, hasItSystem: bool, p: Person,
                            accounts: set<Uuid>, outcome: Outcome, newLink: LinkId): map<LinkId, ITUser>
  {
    var ended := if hasItSystem then WithoutGone(format, itUsers, p, accounts) else itUsers;
    if outcome.Wrote? then WithLink(format, ended, hasItSystem, p, outcome.account, newLink) else ended
  }

  /** Every active user key is spelled as the export writes it. */
  ghost predicate AsWritten(format: Format, itUsers: map<LinkId, ITUser>) {
    forall l <- itUsers :: itUsers[l].active ==> IsSpelled(format, itUsers[l].userKey)
  }

  ghost predicate IsSpelled(format: Format, userKey: string) {
    exists u: Uuid :: userKey == format.show(u)
  }

  /** Links made by the export alone are well keyed, whoever they belong to. */
  lemma WrittenIsWellKeyed(format: Format, itUsers: map<LinkId, ITUser>, p: Person)
    requires ValidFormat(format) && AsWritten(format, itUsers) && KeysUnique(itUsers)
    ensures WellKeyed(format, itUsers, p)
  {
    forall l <- ActiveOf(itUsers, p) ensures format.parse(itUsers[l].userKey).Some?
      && itUsers[l].userKey == format.show(format.parse(itUsers[l].userKey).value)
    {
      assert IsSpelled(format, itUsers[l].userKey);
      var u: Uuid :| itUsers[l].userKey == format.show(u);
      assert format.parse(format.show(u)) == Some(u);
    }
  }

  /** Linking keeps the links of a person well keyed exactly if it has no link to the account in another spelling. */
  lemma LinkingKeepsWellKeyedIff(format: Format, itUsers: map<LinkId, ITUser>, p: Person, u: Uuid, newLink: LinkId)
    requires ValidFormat(format) && WellKeyed(format, itUsers, p) && newLink !in itUsers
    requires !(exists l :: IsKey(itUsers, p, format.show(u), l))
    ensures WellKeyed(format, WithLink(format, itUsers, true, p, u, newLink), p) <==> !LinksTo(format, itUsers, p, u)
  {
    var after := WithLink(format, itUsers, true, p, u, newLink);
    assert format.parse(format.show(u)) == Some(u);
    assert ActiveOf(after, p) == ActiveOf(itUsers, p) + {newLink};
    if LinksTo(format, itUsers, p, u) {
      var l :| l in ActiveOf(itUsers, p) && format.parse(itUsers[l].userKey) == Some(u);
      assert l in ActiveOf(after, p) && newLink in ActiveOf(after, p);
    }
  }

  lemma EndingKeepsSpelling(format: Format, itUsers: map<LinkId, ITUser>, p: Person, accounts: set<Uuid>,
                            after: map<LinkId, ITUser>)
    requires AsWritten(format, itUsers) && OnlyGoneEnded(format, itUsers, p, accounts, after)
    ensures AsWritten(format, after)
  {
    hide IsGone, IsSpelled;
  }

  lemma LinkingKeepsSpelling(format: Format, itUsers: map<LinkId, ITUser>, hasItSystem: bool, p: Person, u: Uuid,
                             newLink: LinkId)
    requires AsWritten(format, itUsers)
    ensures AsWritten(format, WithLink(format, itUsers, hasItSystem, p, u, newLink))
  {
  }

  /** The outcome does not depend on the order in which the candidates are found. */
  lemma BestDnIgnoresOrder(settings: Settings, candidates: seq<LdapObject>, others: seq<LdapObject>)
    requires SameCandidates(candidates, others)
    ensures BestDn(settings, candidates) == BestDn(settings, others)
  {
    FilterIgnoresOrder(settings, candidates, others);
    hide Selected, FilterDns;
    var passing, otherPassing := FilterDns(settings, candidates), FilterDns(settings, others);
    if passing.Ok? {
      assert passing.value != [] ==> passing.value[0] in otherPassing.value;
      assert otherPassing.value != [] ==> otherPassing.value[0] in passing.value;
      SelectedIgnoresOrder(settings, passing.value, otherPassing.value);
    }
  }

  lemma BestDnKnowsEmployee(settings: Settings, candidates: seq<LdapObject>)
    ensures BestDn(settings, candidates) != Err(NoSuchEmployee)
  {
    hide Selected, FilterDns;
  }

  lemma FilterIgnoresOrder(settings: Settings, candidates: seq<LdapObject>, others: seq<LdapObject>)
    requires SameCandidates(candidates, others)
    ensures var passing, otherPassing := FilterDns(settings, candidates), FilterDns(settings, others);
      if passing.Ok? then otherPassing.Ok? && SameCandidates(passing.value, otherPassing.value)
      else otherPassing == passing
  {
    hide Passing, Passes;
  }

  /** The attributes the discriminator needs. */
  function Fields(settings: Settings): set<string> {
    set f <- settings.fields
  }

  /** An outcome of the import's choice and one of the export's that say the same. */
  predicate ComesTo(imported: Result<Option<Dn>, Discriminator.Error>, exported: Result<Option<Dn>, ExportError>) {
    match imported
    case Err(e) => exported == Err(Choosing(e))
    case Ok(dn) => if dn.Some? then exported == Ok(dn) else exported == Ok(None) || exported == Err(NoGoodAccount)
  }

  lemma BestDnIsChoice(settings: Settings, candidates: seq<LdapObject>)
    ensures ComesTo(Choose(settings, candidates), BestDn(settings, candidates))
  {
    hide FilterDns;
    assert Selected(settings, []) == Ok(None);
    hide Selected;
  }

  /** The answer for candidates with all fields, in the words of the settings: no account is asked for
      unless the filter leaves none; of those it leaves, the account that alone matches the first value
      with any match; otherwise the choice is ambiguous, or no account is good enough. */
  lemma BestDnIff(settings: Settings, candidates: seq<LdapObject>, left: seq<LdapObject>, dn: Dn)
    requires settings.fields != [] && AllMapped(candidates, settings.fields) && AreLeft(settings, candidates, left)
    ensures var values, fields := settings.values, settings.fields;
      && (BestDn(settings, candidates) == Ok(Some(dn)) <==>
        exists k: nat :: IsOnlyMatch(values, fields, left, k, dn))
      && (BestDn(settings, candidates) == Err(Choosing(Ambiguous)) <==>
        exists k: nat :: HasManyMatches(values, fields, left, k))
      && (BestDn(settings, candidates) == Ok(None) <==> left == [])
      && (BestDn(settings, candidates) == Err(NoGoodAccount) <==>
        left != [] && forall k | 0 <= k < |values| :: Matches(values[k], fields, left) == {})
  {
    FilterIs(settings, candidates);
    assert Selected(settings, []) == Ok(None);
    hide FilterDns, Selected, Matches, Accepts, IsOnlyMatch, HasManyMatches, AllMapped;
    var passing := FilterDns(settings, candidates).value;
    assert left != [] ==> left[0] in passing;
    assert passing != [] ==> passing[0] in left;
    ChoiceIff(settings, candidates, left, dn);
  }

  /** Without discriminator fields there can be only one name. */
  lemma BestDnOfOne(settings: Settings, candidates: seq<LdapObject>, dn: Dn)
    requires ValidSettings(settings) && settings.fields == []
    ensures BestDn(settings, candidates) == Ok(Some(dn)) <==> candidates != [] && forall o <- candidates :: o.dn == dn
    ensures BestDn(settings, candidates) == Ok(None) <==> candidates == []
  {
    if candidates != [] {
      OnlyNameIff(settings, candidates, dn);
    }
    hide Selected;
  }

  function NamesOf(objects: seq<LdapObject>): seq<Dn> {
    seq(|objects|, i requires 0 <= i < |objects| => objects[i].dn)
  }

  /** The directory by name. */
  ghost function SnapshotOf(accounts: map<Uuid, LdapObject>): Snapshot {
    map dn | dn in set u <- accounts :: accounts[u].dn :: FieldsOf(accounts, dn)
  }

  ghost function FieldsOf(accounts: map<Uuid, LdapObject>, dn: Dn): (fields: map<string, Field>)
    requires exists u <- accounts :: accounts[u].dn == dn
    ensures exists u <- accounts :: accounts[u] == LdapObject(dn, fields)
  {
    var u :| u in accounts && accounts[u].dn == dn;
    accounts[u].fields
  }

  lemma SnapshotHas(accounts: map<Uuid, LdapObject>, u: Uuid)
    requires u in accounts && forall v <- accounts :: accounts[v].dn == accounts[u].dn ==> v == u
    ensures accounts[u].dn in SnapshotOf(accounts)
    ensures accounts[u] == LdapObject(accounts[u].dn, SnapshotOf(accounts)[accounts[u].dn])
  {
  }

  /** Whether the account can be written as rendered for it. */
  predicate CanModify(request: Request, accounts: map<Uuid, LdapObject>, u: Uuid)
    requires u in accounts
  {
    var rendered := request.render(Some(accounts[u]));
    rendered.Some? && NameFree(accounts, u, rendered.value)
  }

  class DataLoader {
    const moapi: MOAPI
    const ldapapi: LDAPAPI
    const format: Format

    constructor (moapi: MOAPI, ldapapi: LDAPAPI, format: Format)
      ensures this.moapi == moapi && this.ldapapi == ldapapi && this.format == format
    {
      this.moapi, this.ldapapi, this.format := moapi, ldapapi, format;
    }

    /** Returns the accounts the person is linked to and terminates the links whose accounts are gone. */
    method FindMoEmployeeDnByItsystem(p: Person, attributes: set<string>)
      returns (result: Result<seq<LdapObject>, ExportError>)
      requires moapi.Valid() && ldapapi.Valid()
      modifies moapi
      ensures moapi.Valid()
      ensures !moapi.hasItSystem ==> result == Ok([]) && moapi.itUsers == old(moapi.itUsers)
      ensures result.Err? ==> moapi.itUsers == old(moapi.itUsers)
      ensures result.Ok? ==> OnlyLinked(format, old(moapi.itUsers), p, ldapapi.Read(attributes), result.value)
      ensures OnlyGoneEnded(format, old(moapi.itUsers), p, ldapapi.accounts.Keys, moapi.itUsers)
      ensures moapi.hasItSystem && WellKeyed(format, old(moapi.itUsers), p) ==>
        && result.Ok? && AllLinked(format, old(moapi.itUsers), p, ldapapi.Read(attributes), result.value)
        && moapi.itUsers == WithoutGone(format, old(moapi.itUsers), p, ldapapi.accounts.Keys)
    {
      if !moapi.hasItSystem {
        return Ok([]);
      }
      var itUsers := moapi.LoadMoEmployeeItUsers(p);
      var extracted := ExtractUniqueLdapUuids(format, itUsers);
      if extracted.Err? {
        return Err(extracted.error);
      }
      var byUuid := extracted.value;
      hide OnlyLinked, AllLinked, OnlyGoneEnded, WellKeyed, WithoutGone;
      FoundAndEnded(format, moapi.itUsers, p, itUsers, ldapapi.accounts.Keys);
      var loads := ldapapi.Read(attributes);
      var objects := InSomeOrder(Found(byUuid, loads));
      SameObjects(format, moapi.itUsers, p, loads, byUuid, objects);
      moapi.TerminateItUsers(Missing(byUuid, ldapapi.accounts.Keys));
      return Ok(objects);
    }

    /** The search by the person's CPR number finds the account, and it comes back like this. */
    ghost predicate FoundAs(p: Person, attributes: set<string>, u: Uuid, o: LdapObject)
      requires p in moapi.employees
      reads ldapapi
    {
      u in ldapapi.accounts && ldapapi.FoundByCpr(moapi.employees[p], ldapapi.accounts[u])
        && Loaded(ldapapi.accounts[u], attributes) == o
    }

    /** The account is searched and its CPR attribute holds the person's number, alone or among others. */
    ghost predicate HoldsCpr(p: Person, o: LdapObject) {
      exists n, a ::
        && p in moapi.employees && moapi.employees[p] == Some(n)
        && ldapapi.cprAttribute == Some(a) && ldapapi.isSearched(o) && HoldsText(o, a, n)
    }

    /** The search finds exactly the searched accounts with the person's CPR number. */
    lemma FoundIff(p: Person, u: Uuid)
      requires u in ldapapi.accounts
      ensures p in moapi.employees && ldapapi.FoundByCpr(moapi.employees[p], ldapapi.accounts[u]) <==>
        HoldsCpr(p, ldapapi.accounts[u])
    {
      if p in moapi.employees && moapi.employees[p].Some? && ldapapi.cprAttribute.Some? {
        var o, n, a := ldapapi.accounts[u], moapi.employees[p].value, ldapapi.cprAttribute.value;
        assert ldapapi.FoundByCpr(moapi.employees[p], o) <==> ldapapi.isSearched(o) && HoldsText(o, a, n);
      }
    }

    /** An account with a single CPR number is found for nobody with another number. */
    lemma FoundForOneNumber(p: Person, q: Person, u: Uuid, cpr: string)
      requires p in moapi.employees && q in moapi.employees && u in ldapapi.accounts
      requires ldapapi.FoundByCpr(moapi.employees[p], ldapapi.accounts[u])
      requires ldapapi.FoundByCpr(moapi.employees[q], ldapapi.accounts[u])
      requires ldapapi.cprAttribute.Some?
      requires var held := ldapapi.accounts[u].fields[ldapapi.cprAttribute.value]; held in {Text(cpr), Many([cpr])}
      ensures moapi.employees[p] == moapi.employees[q] == Some(cpr)
    {
      FoundIff(p, u);
      FoundIff(q, u);
    }

    /** An account is correlated with a person exactly if an active IT-user of the person, in the LDAP
        IT-system, names the account's unique id, or the search by the person's CPR number covers it. */
    lemma CorrelatedIff(itUsers: map<LinkId, ITUser>, p: Person, u: Uuid)
      ensures Correlated(itUsers, p, u) <==>
        && u in ldapapi.accounts
        && (HoldsCpr(p, ldapapi.accounts[u]) || (moapi.hasItSystem &&
          exists l <- itUsers :: itUsers[l].active && itUsers[l].person == p
            && format.parse(itUsers[l].userKey) == Some(u)))
    {
      if u in ldapapi.accounts {
        FoundIff(p, u);
        hide HoldsCpr;
        assert forall l <- itUsers :: itUsers[l].active && itUsers[l].person == p <==> l in ActiveOf(itUsers, p);
      }
    }

    /** The accounts a search by the person's CPR number finds. */
    method FindMoEmployeeDnByCprNumber(p: Person, attributes: set<string>)
      returns (result: Result<seq<LdapObject>, ExportError>)
      ensures result.Err? <==> p !in moapi.employees
      ensures result.Err? ==> result.error == NoSuchEmployee
      ensures result.Ok? ==> forall o :: o in result.value <==> exists u :: FoundAs(p, attributes, u, o)
      ensures result.Ok? ==> forall u <- ldapapi.accounts ::
        HoldsCpr(p, ldapapi.accounts[u]) ==> Loaded(ldapapi.accounts[u], attributes) in result.value
      ensures result.Ok? ==> forall o <- result.value :: exists u <- ldapapi.accounts ::
        HoldsCpr(p, ldapapi.accounts[u]) && Loaded(ldapapi.accounts[u], attributes) == o
    {
      forall u <- ldapapi.accounts { FoundIff(p, u); }
      if p !in moapi.employees {
        return Err(NoSuchEmployee);
      }
      var cpr := moapi.employees[p];
      if cpr.None? {
        return Ok([]);
      }
      var found := set u <- ldapapi.accounts | ldapapi.FoundByCpr(cpr, ldapapi.accounts[u]) ::
        Loaded(ldapapi.accounts[u], attributes);
      var objects := InSomeOrder(found);
      forall o ensures o in objects <==> exists u :: FoundAs(p, attributes, u, o) {
        if o in found {
          var u :| u in ldapapi.accounts && ldapapi.FoundByCpr(cpr, ldapapi.accounts[u])
            && Loaded(ldapapi.accounts[u], attributes) == o;
          assert FoundAs(p, attributes, u, o);
        }
      }
      return Ok(objects);
    }

    /** Whether a link or the CPR number leads from the person to the account. */
    ghost predicate Correlated(itUsers: map<LinkId, ITUser>, p: Person, u: Uuid)
      reads ldapapi
    {
      && u in ldapapi.accounts
      && ((moapi.hasItSystem && LinksTo(format, itUsers, p, u))
          || (p in moapi.employees && ldapapi.FoundByCpr(moapi.employees[p], ldapapi.accounts[u])))
    }

    /** The list holds exactly the accounts correlated with the person, as read for the attributes. */
    ghost predicate AreCandidates(itUsers: map<LinkId, ITUser>, p: Person, attributes: set<string>,
                                  candidates: seq<LdapObject>)
      reads ldapapi
    {
      && AreCorrelated(itUsers, p, attributes, candidates)
      && forall u :: Correlated(itUsers, p, u) ==> ldapapi.Read(attributes)[u] in candidates
    }

    ghost predicate AreCorrelated(itUsers: map<LinkId, ITUser>, p: Person, attributes: set<string>,
                                  candidates: seq<LdapObject>)
      reads ldapapi
    {
      forall o <- candidates :: exists u :: Correlated(itUsers, p, u) && ldapapi.Read(attributes)[u] == o
    }

    /** Exactly the accounts correlated with the person, each once; links to accounts that are gone are terminated. */
    method FindMoEmployeeDn(p: Person, attributes: set<string>) returns (result: Result<seq<LdapObject>, ExportError>)
      requires moapi.Valid() && ldapapi.Valid()
      modifies moapi
      ensures moapi.Valid() && OnlyGoneEnded(format, old(moapi.itUsers), p, ldapapi.accounts.Keys, moapi.itUsers)
      ensures !moapi.hasItSystem ==> moapi.itUsers == old(moapi.itUsers)
      ensures result.Ok? ==> p in moapi.employees && Coherent(result.value)
      ensures result.Ok? ==> AreCorrelated(old(moapi.itUsers), p, attributes, result.value)
      ensures WellKeyed(format, old(moapi.itUsers), p) ==>
        && (result.Ok? <==> p in moapi.employees)
        && (result.Err? ==> result.error == NoSuchEmployee)
        && (result.Ok? ==> AreCandidates(old(moapi.itUsers), p, attributes, result.value))
        && (moapi.hasItSystem ==> moapi.itUsers == WithoutGone(format, old(moapi.itUsers), p, ldapapi.accounts.Keys))
    {
      hide HoldsCpr, FoundAs, OnlyLinked, AllLinked, OnlyGoneEnded, WellKeyed, WithoutGone, LinksTo;
      ghost var was := moapi.itUsers;
      var byItSystem := FindMoEmployeeDnByItsystem(p, attributes);
      if byItSystem.Err? {
        return Err(byItSystem.error);
      }
      var byCpr := FindMoEmployeeDnByCprNumber(p, attributes);
      if byCpr.Err? {
        return Err(byCpr.error);
      }
      var all := byItSystem.value + byCpr.value;
      var unique := UniqueByDn(all);
      AllAreCandidates(was, p, attributes, byItSystem.value, byCpr.value);
      forall o <- all ensures o in unique {
        UniqueKeepsAll(ldapapi.Read(attributes), all, o);
      }
      return Ok(unique);
    }

    lemma AllAreCandidates(itUsers: map<LinkId, ITUser>, p: Person, attributes: set<string>,
                           byItSystem: seq<LdapObject>, byCpr: seq<LdapObject>)
      requires p in moapi.employees
      requires OnlyLinked(format, itUsers, p, ldapapi.Read(attributes), byItSystem)
      requires !moapi.hasItSystem ==> byItSystem == []
      requires forall o :: o in byCpr <==> exists u :: FoundAs(p, attributes, u, o)
      ensures AreCorrelated(itUsers, p, attributes, byItSystem + byCpr)
      ensures moapi.hasItSystem ==> AllLinked(format, itUsers, p, ldapapi.Read(attributes), byItSystem) ==>
                AreCandidates(itUsers, p, attributes, byItSystem + byCpr)
      ensures !moapi.hasItSystem ==> AreCandidates(itUsers, p, attributes, byItSystem + byCpr)
    {
      hide LinksTo;
      var loads := ldapapi.Read(attributes);
      forall o <- byItSystem + byCpr ensures exists u :: Correlated(itUsers, p, u) && loads[u] == o {
        if o in byCpr {
          var u :| FoundAs(p, attributes, u, o);
          assert Correlated(itUsers, p, u) && loads[u] == o;
        } else {
          var u :| u in loads && loads[u] == o && LinksTo(format, itUsers, p, u);
          assert Correlated(itUsers, p, u);
        }
      }
      if !moapi.hasItSystem || AllLinked(format, itUsers, p, loads, byItSystem) {
        forall u | Correlated(itUsers, p, u) ensures loads[u] in byItSystem + byCpr {
          if ldapapi.FoundByCpr(moapi.employees[p], ldapapi.accounts[u]) {
            assert FoundAs(p, attributes, u, loads[u]);
          }
        }
      }
    }

    /** An account without a value in a discriminator field is no error: the field comes back empty. */
    lemma NoFieldIsMissing(itUsers: map<LinkId, ITUser>, p: Person, settings: Settings, candidates: seq<LdapObject>)
      requires AreCorrelated(itUsers, p, Fields(settings), candidates)
      ensures MappingError(candidates, settings.fields) != Some(MissingFields)
    {
      forall o <- candidates, f <- settings.fields ensures f in o.fields {
        var u :| Correlated(itUsers, p, u) && ldapapi.Read(Fields(settings))[u] == o;
      }
    }

    lemma CandidateIsNamed(itUsers: map<LinkId, ITUser>, p: Person, attributes: set<string>,
                           candidates: seq<LdapObject>, o: LdapObject)
      requires AreCorrelated(itUsers, p, attributes, candidates) && o in candidates
      ensures exists u :: Correlated(itUsers, p, u) && ldapapi.accounts[u].dn == o.dn
    {
      var u :| Correlated(itUsers, p, u) && ldapapi.Read(attributes)[u] == o;
      assert ldapapi.accounts[u].dn == o.dn;
    }

    /** Selects among the candidates; the candidates are given back for the contract. */
    method FindBestDn(p: Person, settings: Settings)
      returns (result: Result<Option<Dn>, ExportError>, ghost candidates: seq<LdapObject>)
      requires moapi.Valid() && ldapapi.Valid() && ValidSettings(settings)
      modifies moapi
      ensures moapi.Valid() && OnlyGoneEnded(format, old(moapi.itUsers), p, ldapapi.accounts.Keys, moapi.itUsers)
      ensures AreCorrelated(old(moapi.itUsers), p, Fields(settings), candidates)
      ensures result.Ok? ==> p in moapi.employees && result == BestDn(settings, candidates)
      ensures result.Ok? && result.value.Some? ==>
        exists u :: Correlated(old(moapi.itUsers), p, u) && ldapapi.accounts[u].dn == result.value.value
      ensures WellKeyed(format, old(moapi.itUsers), p) && p in moapi.employees ==>
        && result == BestDn(settings, candidates)
        && AreCandidates(old(moapi.itUsers), p, Fields(settings), candidates)
      ensures WellKeyed(format, old(moapi.itUsers), p) && p !in moapi.employees ==> result == Err(NoSuchEmployee)
      ensures !moapi.hasItSystem ==> moapi.itUsers == old(moapi.itUsers)
      ensures WellKeyed(format, old(moapi.itUsers), p) && moapi.hasItSystem ==>
        moapi.itUsers == WithoutGone(format, old(moapi.itUsers), p, ldapapi.accounts.Keys)
    {
      assert AreCorrelated(moapi.itUsers, p, Fields(settings), []);
      hide WellKeyed, WithoutGone, OnlyGoneEnded, Correlated, Selected, AreCorrelated, AreCandidates;
      candidates := [];
      var found := FindMoEmployeeDn(p, Fields(settings));
      if found.Err? {
        return Err(found.error), [];
      }
      candidates := found.value;
      var filtered := FilterDns(settings, found.value);
      if filtered.Err? {
        return Err(Choosing(filtered.error)), candidates;
      }
      if filtered.value == [] {
        return Ok(None), candidates;
      }
      var best := ApplyDiscriminator(settings, filtered.value);
      if best.Err? {
        return Err(Choosing(best.error)), candidates;
      }
      if best.value.None? {
        return Err(NoGoodAccount), candidates;
      }
      CandidateIsNamed(old(moapi.itUsers), p, Fields(settings), candidates, best.value.value);
      return Ok(Some(best.value.value.dn)), candidates;
    }

    /** The person is linked to the account, if the IT-system for links exists. */
    ghost predicate OwnLinkMade(itUsers: map<LinkId, ITUser>, p: Person, u: Uuid) {
      moapi.hasItSystem ==> exists l :: IsKey(itUsers, p, format.show(u), l)
    }

    /** The link is what the next handling finds the account by. */
    lemma LinkedIsCorrelated(itUsers: map<LinkId, ITUser>, p: Person, u: Uuid)
      requires ValidFormat(format) && moapi.hasItSystem && OwnLinkMade(itUsers, p, u) && u in ldapapi.accounts
      ensures Correlated(itUsers, p, u)
    {
      var l :| IsKey(itUsers, p, format.show(u), l);
      assert l in ActiveOf(itUsers, p) && format.parse(format.show(u)) == Some(u);
    }

    /** Links the person to the account unless it is linked already. */
    method EnsureItuserLink(p: Person, u: Uuid, newLink: LinkId)
      requires moapi.Valid() && newLink !in moapi.itUsers
      modifies moapi
      ensures moapi.Valid()
      ensures moapi.itUsers == WithLink(format, old(moapi.itUsers), moapi.hasItSystem, p, u, newLink)
      ensures OwnLinkMade(moapi.itUsers, p, u)
    {
      if !moapi.hasItSystem {
        return;
      }
      var userKey := format.show(u);
      if exists l <- moapi.itUsers :: IsKey(moapi.itUsers, p, userKey, l) {
        return;
      }
      moapi.CreateItUser(newLink, p, userKey);
      assert IsKey(moapi.itUsers, p, userKey, newLink);
    }

    /** Writes the account and links it to the person. */
    method WriteAndLink(p: Person, u: Uuid, o: LdapObject, newLink: LinkId) returns (ok: bool)
      requires moapi.Valid() && ldapapi.Valid() && newLink !in moapi.itUsers
      modifies moapi, ldapapi
      ensures moapi.Valid() && ldapapi.Valid()
      ensures ok == NameFree(old(ldapapi.accounts), u, o)
      ensures ldapapi.accounts == if ok then old(ldapapi.accounts)[u := o] else old(ldapapi.accounts)
      ensures moapi.itUsers == if ok then WithLink(format, old(moapi.itUsers), moapi.hasItSystem, p, u, newLink)
        else old(moapi.itUsers)
    {
      ok := ldapapi.Write(u, o);
      if ok {
        EnsureItuserLink(p, u, newLink);
      }
    }

    predicate HasCorrelationKey(p: Person) {
      moapi.hasItSystem || (p in moapi.employees && moapi.employees[p].Some?)
    }

    /** The account has been written as rendered for what was there before, and nothing else. */
    ghost predicate Written(before: map<Uuid, LdapObject>, u: Uuid, render: Rendering)
      reads ldapapi
    {
      exists o :: render(if u in before then Some(before[u]) else None) == Some(o) && ldapapi.accounts == before[u := o]
    }

    /** What a handling leaves in the two stores. */
    ghost predicate Leaves(accounts: map<Uuid, LdapObject>, itUsers: map<LinkId, ITUser>, p: Person, request: Request,
                           outcome: Outcome)
      reads ldapapi, moapi
    {
      && (if outcome.Wrote? then Written(accounts, outcome.account, request.render) else ldapapi.accounts == accounts)
      && moapi.itUsers ==
        if outcome.Wrote? then WithLink(format, itUsers, moapi.hasItSystem, p, outcome.account, request.newLink)
          else itUsers
    }

    method CreateAccount(p: Person, request: Request) returns (outcome: Outcome)
      requires moapi.Valid() && ldapapi.Valid()
      requires request.newAccount !in ldapapi.accounts && request.newLink !in moapi.itUsers
      modifies moapi, ldapapi
      ensures moapi.Valid() && ldapapi.Valid()
      ensures outcome == CreationOutcome(p, request, old(ldapapi.accounts))
      ensures Leaves(old(ldapapi.accounts), old(moapi.itUsers), p, request, outcome)
    {
      hide NameFree, WithLink;
      var rendered := if request.mayCreate then request.render(None) else None;
      if rendered.None? {
        return Skipped;
      }
      if !HasCorrelationKey(p) {
        return NoCorrelationKey;
      }
      var ok := WriteAndLink(p, request.newAccount, rendered.value, request.newLink);
      return if ok then Wrote(request.newAccount) else NameTaken;
    }

    /** The conditions of a creation, and what comes of each that fails. */
    ghost function CreationOutcome(p: Person, request: Request, accounts: map<Uuid, LdapObject>): (outcome: Outcome)
      ensures outcome.Wrote? ==> outcome.account == request.newAccount
      ensures outcome.Wrote? <==>
        && request.mayCreate
        && (moapi.hasItSystem || exists cpr :: p in moapi.employees && moapi.employees[p] == Some(cpr))
        && request.render(None).Some?
        && forall u <- accounts :: accounts[u].dn == request.render(None).value.dn ==> u == request.newAccount
      ensures outcome == Skipped <==> !request.mayCreate || request.render(None) == None
      ensures !outcome.Failed?
    {
      if !request.mayCreate || request.render(None).None? then Skipped
      else if !HasCorrelationKey(p) then NoCorrelationKey
      else if NameFree(accounts, request.newAccount, request.render(None).value) then Wrote(request.newAccount)
      else NameTaken
    }

    method ModifyAccount(p: Person, request: Request, dn: Dn) returns (outcome: Outcome)
      requires moapi.Valid() && ldapapi.Valid() && request.newLink !in moapi.itUsers
      requires exists u <- ldapapi.accounts :: ldapapi.accounts[u].dn == dn
      modifies moapi, ldapapi
      ensures moapi.Valid() && ldapapi.Valid()
      ensures forall u <- old(ldapapi.accounts) :: old(ldapapi.accounts)[u].dn == dn ==>
        outcome == ModificationOutcome(request, old(ldapapi.accounts), u)
      ensures Leaves(old(ldapapi.accounts), old(moapi.itUsers), p, request, outcome)
    {
      hide NameFree, WithLink;
      var u :| u in ldapapi.accounts && ldapapi.accounts[u].dn == dn;
      var rendered := request.render(Some(ldapapi.accounts[u]));
      if rendered.None? {
        return Skipped;
      }
      var ok := WriteAndLink(p, u, rendered.value, request.newLink);
      return if ok then Wrote(u) else NameTaken;
    }

    ghost function ModificationOutcome(request: Request, accounts: map<Uuid, LdapObject>, u: Uuid): (outcome: Outcome)
      requires u in accounts
      ensures outcome.Wrote? ==> outcome.account == u
      ensures outcome.Wrote? <==>
        && request.render(Some(accounts[u])).Some?
        && forall v <- accounts :: accounts[v].dn == request.render(Some(accounts[u])).value.dn ==> v == u
      ensures outcome == Skipped <==> request.render(Some(accounts[u])) == None
    {
      if request.render(Some(accounts[u])).None? then Skipped
      else if CanModify(request, accounts, u) then Wrote(u)
      else NameTaken
    }

    /** Nothing correlated with the person passes the filter. */
    ghost predicate AllRefused(itUsers: map<LinkId, ITUser>, p: Person, settings: Settings)
      reads ldapapi
    {
      forall v :: Correlated(itUsers, p, v) ==> Refused(settings, ldapapi.Read(Fields(settings))[v])
    }

    /** Whether a handling comes to an outcome, for the accounts there are and the candidates among them. */
    ghost predicate IsOutcome(accounts: map<Uuid, LdapObject>, p: Person, request: Request, candidates: seq<LdapObject>,
                              outcome: Outcome)
    {
      match BestDn(request.settings, candidates)
      case Err(e) => outcome == if e.NoGoodAccount? then Skipped else Failed(e)
      case Ok(best) =>
        if best.None? then outcome == CreationOutcome(p, request, accounts)
        else
          && (exists u <- accounts :: accounts[u].dn == best.value)
          && forall u <- accounts :: accounts[u].dn == best.value ==>
            outcome == ModificationOutcome(request, accounts, u)
    }

    /** Which account is written: an existing one exactly if it is the one selected, something is rendered
        for it and its name is free; a new one exactly if nothing correlated passes the filter and a
        creation is possible. */
    lemma WrittenIff(itUsers: map<LinkId, ITUser>, p: Person, request: Request, candidates: seq<LdapObject>,
                     outcome: Outcome, u: Uuid)
      requires ldapapi.Valid() && AreCandidates(itUsers, p, Fields(request.settings), candidates)
        && request.newAccount !in ldapapi.accounts
      requires IsOutcome(ldapapi.accounts, p, request, candidates, outcome)
      ensures u in ldapapi.accounts ==>
        (outcome == Wrote(u) <==>
          BestDn(request.settings, candidates) == Ok(Some(ldapapi.accounts[u].dn))
            && CanModify(request, ldapapi.accounts, u))
      ensures outcome == Wrote(request.newAccount) <==>
        AllRefused(itUsers, p, request.settings) && CreationOutcome(p, request, ldapapi.accounts).Wrote?
    {
      hide BestDn, Refused, Correlated;
      CreationIff(request.settings, candidates);
    }

    /** Import and export call the same lookup, for more attributes or just the discriminator fields. If the
        import asks for these, both come to the same: an account, an error, or none (which the export tells
        apart further). If it does not, it selects none. So they never select different accounts. */
    lemma BothLookupsAgree(itUsers: map<LinkId, ITUser>, p: Person, settings: Settings,
                           importing: seq<LdapObject>, exporting: seq<LdapObject>, attributes: set<string>)
      requires ldapapi.Valid() && AreCandidates(itUsers, p, attributes, importing)
      requires AreCandidates(itUsers, p, Fields(settings), exporting)
      ensures var imported, exported := Choose(settings, importing), BestDn(settings, exporting);
        && (Fields(settings) <= attributes ==> ComesTo(imported, exported))
        && (imported.Ok? && imported.value.Some? && exported.Ok? && exported.value.Some? ==>
          imported.value == exported.value)
    {
      hide Correlated, Choose, BestDn;
      var snapshot := SnapshotOf(ldapapi.accounts);
      CandidatesAreLoads(itUsers, p, attributes, importing);
      CandidatesAreLoads(itUsers, p, Fields(settings), exporting);
      SameNames(itUsers, p, attributes, importing, Fields(settings), exporting);
      SameNames(itUsers, p, Fields(settings), exporting, attributes, importing);
      hide LoadAll;
      BothDirectionsAgree(settings, snapshot, NamesOf(importing), NamesOf(exporting), attributes);
      BestDnIsChoice(settings, exporting);
    }

    lemma CandidatesAreLoads(itUsers: map<LinkId, ITUser>, p: Person, attributes: set<string>,
                             candidates: seq<LdapObject>)
      requires ldapapi.Valid() && AreCorrelated(itUsers, p, attributes, candidates)
      ensures var snapshot := SnapshotOf(ldapapi.accounts);
        && (forall dn <- NamesOf(candidates) :: dn in snapshot)
        && candidates == LoadAll(snapshot, NamesOf(candidates), attributes)
    {
      hide LinksTo;
      var snapshot := SnapshotOf(ldapapi.accounts);
      forall i | 0 <= i < |candidates|
        ensures candidates[i].dn in snapshot && candidates[i] == Load(snapshot, candidates[i].dn, attributes)
      {
        assert candidates[i] in candidates;
        var u :| Correlated(itUsers, p, u) && ldapapi.Read(attributes)[u] == candidates[i];
        SnapshotHas(ldapapi.accounts, u);
      }
    }

    lemma SameNames(itUsers: map<LinkId, ITUser>, p: Person, attributes: set<string>, candidates: seq<LdapObject>,
                    otherAttributes: set<string>, others: seq<LdapObject>)
      requires AreCorrelated(itUsers, p, attributes, candidates) && AreCandidates(itUsers, p, otherAttributes, others)
      ensures forall dn <- NamesOf(candidates) :: dn in NamesOf(others)
    {
      hide LinksTo;
      forall i | 0 <= i < |candidates| ensures candidates[i].dn in NamesOf(others) {
        assert candidates[i] in candidates;
        var u :| Correlated(itUsers, p, u) && ldapapi.Read(attributes)[u] == candidates[i];
        var j :| 0 <= j < |others| && others[j] == ldapapi.Read(otherAttributes)[u];
        assert NamesOf(others)[j] == candidates[i].dn;
      }
    }

    /** Handles a change of a person. The links to accounts that are gone are ended; at most one account is
        written, as rendered for it, and then the person is linked to it. With well-keyed links it is decided
        by exactly the correlated accounts which one that is. */
    method ListenToChangesInEmployees(p: Person, request: Request)
      returns (outcome: Outcome, ghost candidates: seq<LdapObject>)
      requires moapi.Valid() && ldapapi.Valid() && ValidSettings(request.settings)
      requires request.newAccount !in ldapapi.accounts && request.newLink !in moapi.itUsers
      modifies moapi, ldapapi
      ensures moapi.Valid() && ldapapi.Valid()
      ensures if outcome.Wrote? then Written(old(ldapapi.accounts), outcome.account, request.render)
              else ldapapi.accounts == old(ldapapi.accounts)
      ensures outcome.Wrote? ==> OwnLinkMade(moapi.itUsers, p, outcome.account)
      ensures outcome.Wrote? ==>
        outcome.account == request.newAccount || old(Correlated(moapi.itUsers, p, outcome.account))
      ensures old(WellKeyed(format, moapi.itUsers, p)) && p in moapi.employees ==>
        old(AreCandidates(moapi.itUsers, p, Fields(request.settings), candidates))
          && IsOutcome(old(ldapapi.accounts), p, request, candidates, outcome)
      ensures old(WellKeyed(format, moapi.itUsers, p)) && p !in moapi.employees ==> outcome == Skipped
      ensures old(WellKeyed(format, moapi.itUsers, p)) ==>
        moapi.itUsers ==
          LinksAfter(format, old(moapi.itUsers), moapi.hasItSystem, p, old(ldapapi.accounts.Keys), outcome,
            request.newLink)
      ensures OthersKept(old(moapi.itUsers), p, moapi.itUsers)
      ensures old(KeysUnique(moapi.itUsers)) ==> KeysUnique(moapi.itUsers)
      ensures old(AsWritten(format, moapi.itUsers)) ==> AsWritten(format, moapi.itUsers)
    {
      hide KeysUnique, OthersKept, OnlyGoneEnded, WellKeyed, WithoutGone, BestDn, Refused, LinksTo, NameFree, WithLink;
      hide AsWritten, OwnLinkMade;
      hide Written, CanModify;
      var best;
      best, candidates := FindBestDn(p, request.settings);
      ghost var between := moapi.itUsers;
      LinkingEffects(old(moapi.itUsers), between, p, request);
      BestDnKnowsEmployee(request.settings, candidates);
      if best.Err? {
        return if best.error.NoGoodAccount?
          || best.error.NoSuchEmployee? then Skipped else Failed(best.error), candidates;
      }
      if best.value.None? {
        outcome := CreateAccount(p, request);
      } else {
        outcome := ModifyAccount(p, request, best.value.value);
      }
    }

    /** What ending links to accounts that are gone and then linking the person keeps. */
    lemma LinkingEffects(itUsers: map<LinkId, ITUser>, between: map<LinkId, ITUser>, p: Person, request: Request)
      requires OnlyGoneEnded(format, itUsers, p, ldapapi.accounts.Keys, between) && request.newLink !in itUsers
      ensures between.Keys == itUsers.Keys
      ensures OthersKept(itUsers, p, between) && (KeysUnique(itUsers) ==> KeysUnique(between))
      ensures AsWritten(format, itUsers) ==> AsWritten(format, between)
      ensures forall u: Uuid :: var after := WithLink(format, between, moapi.hasItSystem, p, u, request.newLink);
        && OthersKept(itUsers, p, after) && OwnLinkMade(after, p, u)
        && (KeysUnique(itUsers) ==> KeysUnique(after)) && (AsWritten(format, itUsers) ==> AsWritten(format, after))
    {
      OnlyGoneKeepsOthers(format, itUsers, p, ldapapi.accounts.Keys, between);
      if KeysUnique(itUsers) {
        EndingKeepsKeysUnique(format, itUsers, p, ldapapi.accounts.Keys, between);
      }
      if AsWritten(format, itUsers) {
        EndingKeepsSpelling(format, itUsers, p, ldapapi.accounts.Keys, between);
      }
      hide OnlyGoneEnded, KeysUnique, AsWritten;
      forall u: Uuid ensures var after := WithLink(format, between, moapi.hasItSystem, p, u, request.newLink);
        && OthersKept(itUsers, p, after) && OwnLinkMade(after, p, u)
        && (KeysUnique(itUsers) ==> KeysUnique(after)) && (AsWritten(format, itUsers) ==> AsWritten(format, after))
      {
        if AsWritten(format, between) {
          LinkingKeepsSpelling(format, between, moapi.hasItSystem, p, u, request.newLink);
        }
        var after := WithLink(format, between, moapi.hasItSystem, p, u, request.newLink);
        if after != between {
          assert IsKey(after, p, format.show(u), request.newLink);
          if KeysUnique(between) {
            LinkingKeepsKeysUnique(between, p, format.show(u), request.newLink);
          }
        }
      }
    }
  }
}
