/** The LDAP writer (mo_ldap_import_export/ldapapi.py:123-267, 354-483): the desired attributes are
    compared with the entry, and what differs is written as an attribute replacement followed by a
    rename, two operations that a crash may separate. */
module LdapWriter {
  import opened Wrappers

  type Uuid = nat

  /** An attribute description with its case folded, as LDAP compares them. */
  type Name = string

  type Value = string
  type Values = seq<Value>

  /** A distinguished name: the escaped naming values of the entry, and the name of its parent. */
  datatype Dn = Dn(rdn: map<Name, string>, parent: string)

  datatype Entry = Entry(dn: Dn, attributes: map<Name, Values>)

  type Entries = map<Uuid, Entry>

  datatype Error = NoSuchObject | ReadOnly | NotOneValue | EntryAlreadyExists | IncorrectMapping

  // ---------------------------------------------------------------------------------------------
  // Names and naming values
  // ---------------------------------------------------------------------------------------------

  function FoldChar(c: char): char {
    if 'A' <= c <= 'Z' then c - 'A' + 'a' else c
  }

  function Casefold(name: string): Name {
    seq(|name|, i requires 0 <= i < |name| => FoldChar(name[i]))
  }

  /** Names are the same if they differ at most in the case of letters. */
  lemma CasefoldIff(a: string, b: string)
    ensures Casefold(a) == Casefold(b) <==>
      |a| == |b| && forall i :: 0 <= i < |a| ==>
        || a[i] == b[i]
        || ('A' <= a[i] <= 'Z' && b[i] as int == a[i] as int + 32)
        || ('A' <= b[i] <= 'Z' && a[i] as int == b[i] as int + 32)
  {
    assert |Casefold(a)| == |a| && |Casefold(b)| == |b|;
    assert forall i :: 0 <= i < |a| ==> Casefold(a)[i] == FoldChar(a[i]);
    assert forall i :: 0 <= i < |b| ==> Casefold(b)[i] == FoldChar(b[i]);
  }

  predicate MustEscape(c: char) {
    c == '\\' || c == ',' || c == '+' || c == '"' || c == '<' || c == '>' || c == ';' || c == '='
  }

  /** Escapes a naming value (section 2.4 of RFC 4514) from position `at` on. */
  function EscapeFrom(value: Value, at: nat): string
    requires at <= |value|
    decreases |value| - at
  {
    if at == |value| then ""
    else
      var c := value[at];
      var leading := at == 0 && (c == '#' || c == ' ');
      var trailing := at == |value| - 1 && c == ' ';
      (if MustEscape(c) || leading || trailing then ['\\', c] else [c]) + EscapeFrom(value, at + 1)
  }

  function EscapeRdn(value: Value): string {
    EscapeFrom(value, 0)
  }

  function UnescapeRdn(text: string): Value {
    if text == "" then ""
    else if text[0] == '\\' && |text| > 1 then [text[1]] + UnescapeRdn(text[2..])
    else [text[0]] + UnescapeRdn(text[1..])
  }

  lemma {:induction false} UnescapeEscaped(value: Value, at: nat)
    requires at <= |value|
    ensures UnescapeRdn(EscapeFrom(value, at)) == value[at..]
    decreases |value| - at
  {
    if at < |value| {
      UnescapeEscaped(value, at + 1);
      UnescapeOne(value[at], EscapeFrom(value, at + 1));
      assert value[at..] == [value[at]] + value[at + 1..];
    }
  }

  /** A character that cannot stand for itself in a naming value at its place. */
  ghost predicate IsSpecial(value: Value, i: nat)
    requires i < |value|
  {
    || value[i] in "\\,+\"<>;="
    || (i == 0 && value[i] in "# ")
    || (i == |value| - 1 && value[i] == ' ')
  }

  lemma {:induction false} EscapedLength(value: Value, at: nat)
    requires at <= |value|
    ensures |EscapeFrom(value, at)| >= |value| - at
    ensures EscapeFrom(value, at) == value[at..] <==> forall i :: at <= i < |value| ==> !IsSpecial(value, i)
    decreases |value| - at
  {
    if at < |value| {
      EscapedLength(value, at + 1);
      assert value[at..] == [value[at]] + value[at + 1..];
      var special := IsSpecial(value, at);
      assert special ==> |EscapeFrom(value, at)| > |value| - at;
    }
  }

  /** A naming value is written as it is exactly if it has no special character. */
  lemma EscapeIsIdentityIff(value: Value)
    ensures EscapeRdn(value) == value <==> forall i :: 0 <= i < |value| ==> !IsSpecial(value, i)
  {
    EscapedLength(value, 0);
    assert value[0..] == value;
  }

  lemma UnescapeOne(c: char, rest: string)
    ensures UnescapeRdn(['\\', c] + rest) == [c] + UnescapeRdn(rest)
    ensures c != '\\' ==> UnescapeRdn([c] + rest) == [c] + UnescapeRdn(rest)
  {
    assert (['\\', c] + rest)[2..] == rest;
    assert ([c] + rest)[1..] == rest;
  }

  /** Distinct naming values have distinct escaped forms. */
  lemma EscapeIsInjective(a: Value, b: Value)
    requires EscapeRdn(a) == EscapeRdn(b)
    ensures a == b
  {
    UnescapeEscaped(a, 0);
    UnescapeEscaped(b, 0);
    assert a[0..] == a && b[0..] == b;
  }

  // ---------------------------------------------------------------------------------------------
  // The directory
  // ---------------------------------------------------------------------------------------------

  /** What a read of one attribute gives: no values if the attribute is absent. */
  function ValuesOf(entry: Entry, name: Name): Values {
    if name in entry.attributes then entry.attributes[name] else []
  }

  /** Naming attributes hold exactly their naming value, and no attribute is present without values. */
  predicate ValidEntry(entry: Entry) {
    && (forall k <- entry.dn.rdn :: |ValuesOf(entry, k)| == 1 && entry.dn.rdn[k] == EscapeRdn(ValuesOf(entry, k)[0]))
    && (forall k <- entry.attributes :: entry.attributes[k] != [])
  }

  ghost predicate Valid(entries: Entries) {
    && (forall u <- entries :: ValidEntry(entries[u]))
    && (forall u, v :: u in entries && v in entries && entries[u].dn == entries[v].dn ==> u == v)
  }

  predicate Taken(entries: Entries, dn: Dn) {
    exists u <- entries :: entries[u].dn == dn
  }

  function WithoutEmpty(changes: map<Name, Values>): map<Name, Values> {
    map k | k in changes && changes[k] != [] :: changes[k]
  }

  /** The MODIFY operation with one replacement per attribute; no values removes the attribute. */
  function Replaced(entry: Entry, changes: map<Name, Values>): Entry {
    entry.(attributes := (entry.attributes - changes.Keys) + WithoutEmpty(changes))
  }

  /** The MODIFY DN operation, deleting the old naming values and adding the new ones. */
  function Renamed(entry: Entry, rdn: map<Name, string>): Entry {
    Entry(entry.dn.(rdn := rdn),
          (entry.attributes - entry.dn.rdn.Keys) + map k <- rdn :: [UnescapeRdn(rdn[k])])
  }

  class Directory {
    var entries: Entries
    var operations: nat

    constructor (entries: Entries)
      ensures this.entries == entries && operations == 0
    {
      this.entries, operations := entries, 0;
    }

    method Modify(uuid: Uuid, changes: map<Name, Values>)
      requires uuid in entries
      modifies this
      ensures entries == old(entries)[uuid := Replaced(old(entries)[uuid], changes)]
      ensures operations == old(operations) + 1
    {
      entries, operations := entries[uuid := Replaced(entries[uuid], changes)], operations + 1;
    }

    method ModifyDn(uuid: Uuid, rdn: map<Name, string>) returns (result: Result<(), Error>)
      requires uuid in entries
      modifies this
      ensures result ==
        if Taken(old(entries), old(entries)[uuid].dn.(rdn := rdn)) then Err(EntryAlreadyExists) else Ok(())
      ensures entries == if result.Ok? then old(entries)[uuid := Renamed(old(entries)[uuid], rdn)] else old(entries)
      ensures operations == old(operations) + 1
    {
      operations := operations + 1;
      if Taken(entries, entries[uuid].dn.(rdn := rdn)) {
        return Err(EntryAlreadyExists);
      }
      entries := entries[uuid := Renamed(entries[uuid], rdn)];
      return Ok(());
    }

    method Add(uuid: Uuid, dn: Dn, attributes: map<Name, Values>) returns (result: Result<(), Error>)
      requires uuid !in entries
      modifies this
      ensures result == if Taken(old(entries), dn) then Err(EntryAlreadyExists) else Ok(())
      ensures entries == if result.Ok? then old(entries)[uuid := Added(dn, attributes)] else old(entries)
      ensures operations == old(operations) + 1
    {
      operations := operations + 1;
      if Taken(entries, dn) {
        return Err(EntryAlreadyExists);
      }
      entries := entries[uuid := Added(dn, attributes)];
      return Ok(());
    }
  }

  /** The ADD operation: the naming values become attributes of the new entry. */
  function Added(dn: Dn, attributes: map<Name, Values>): Entry {
    Entry(dn, attributes + map k <- dn.rdn :: [UnescapeRdn(dn.rdn[k])])
  }

  // ---------------------------------------------------------------------------------------------
  // The writer
  // ---------------------------------------------------------------------------------------------

  /** A dictionary of attributes in iteration order; its keys may differ in case only. */
  type Attributes = seq<(string, Values)>

  /** The dictionary with its keys folded, where the last of several equal keys counts. */
  function DesiredState(attributes: Attributes): map<Name, Values> {
    if attributes == [] then map[]
    else
      var last := attributes[|attributes| - 1];
      DesiredState(attributes[..|attributes| - 1])[Casefold(last.0) := last.1]
  }

  function Changes(entry: Entry, desired: map<Name, Values>): map<Name, Values> {
    map k | k in desired && ValuesOf(entry, k) != desired[k] :: desired[k]
  }

  function ModifyChanges(rdn: map<Name, string>, changes: map<Name, Values>): map<Name, Values> {
    changes - rdn.Keys
  }

  /** Every naming attribute that changes gets one value, and not the empty one, which cannot be escaped. */
  predicate OneValueEach(rdn: map<Name, string>, changes: map<Name, Values>) {
    forall k <- changes :: k in rdn ==> |changes[k]| == 1 && changes[k][0] != ""
  }

  function DesiredRdn(rdn: map<Name, string>, changes: map<Name, Values>): map<Name, string>
    requires OneValueEach(rdn, changes)
  {
    map k <- rdn :: if k in changes then EscapeRdn(changes[k][0]) else rdn[k]
  }

  datatype Settings = Settings(readOnly: bool, writable: set<Dn>)

  /** The attribute replacement that comes first, if any attribute outside the naming ones changes. */
  function AfterModify(entries: Entries, uuid: Uuid, changes: map<Name, Values>): Entries
    requires uuid in entries
  {
    var modifyChanges := ModifyChanges(entries[uuid].dn.rdn, changes);
    if modifyChanges == map[] then entries else entries[uuid := Replaced(entries[uuid], modifyChanges)]
  }

  /** The rename that comes second, if a naming attribute changes. */
  function AfterRename(settings: Settings, entries: Entries, uuid: Uuid, changes: map<Name, Values>)
    : (Entries, Result<(), Error>)
    requires uuid in entries
  {
    var dn := entries[uuid].dn;
    if !OneValueEach(dn.rdn, changes) then (entries, Err(NotOneValue))
    else
      var rdn := DesiredRdn(dn.rdn, changes);
      if rdn == dn.rdn then (entries, Ok(()))
      else if settings.readOnly then (entries, Err(ReadOnly))
      else if Taken(entries, dn.(rdn := rdn)) then (entries, Err(EntryAlreadyExists))
      else (entries[uuid := Renamed(entries[uuid], rdn)], Ok(()))
  }

  function Modified(settings: Settings, entries: Entries, uuid: Uuid, changes: map<Name, Values>)
    : (Entries, Result<(), Error>)
    requires uuid in entries
  {
    var dn := entries[uuid].dn;
    if dn !in settings.writable || changes == map[] then (entries, Ok(()))
    else if ModifyChanges(dn.rdn, changes) != map[] && settings.readOnly then (entries, Err(ReadOnly))
    else AfterRename(settings, AfterModify(entries, uuid, changes), uuid, changes)
  }

  ghost function Find(entries: Entries, dn: Dn): (found: Option<Uuid>)
    ensures found.Some? ==> found.value in entries && entries[found.value].dn == dn
    ensures found.None? ==> !Taken(entries, dn)
  {
    if Taken(entries, dn) then var u :| u in entries && entries[u].dn == dn; Some(u) else None
  }

  /** The whole of `ensure_ldap_object` on an existing entry. */
  ghost function Ensured(settings: Settings, entries: Entries, dn: Dn, attributes: Attributes)
    : (Entries, Result<Dn, Error>)
  {
    match Find(entries, dn)
    case None => (entries, Err(NoSuchObject))
    case Some(u) =>
      var (after, result) := Modified(settings, entries, u, Changes(entries[u], DesiredState(attributes)));
      (after, match result case Ok(_) => Ok(after[u].dn) case Err(e) => Err(e))
  }

  class LDAPAPI {
    const settings: Settings
    const directory: Directory

    constructor (settings: Settings, directory: Directory)
      ensures this.settings == settings && this.directory == directory
    {
      this.settings, this.directory := settings, directory;
    }

    method GetObjectByDn(dn: Dn) returns (found: Option<Uuid>)
      requires Valid(directory.entries)
      ensures found == Find(directory.entries, dn)
    {
      var todo := directory.entries.Keys;
      while todo != {}
        invariant todo <= directory.entries.Keys
        invariant forall u <- directory.entries :: directory.entries[u].dn == dn ==> u in todo
      {
        var u :| u in todo;
        if directory.entries[u].dn == dn {
          return Some(u);
        }
        todo := todo - {u};
      }
      return None;
    }

    method AddLdapObject(uuid: Uuid, dn: Dn, attributes: Attributes) returns (result: Result<(), Error>)
      requires uuid !in directory.entries
      modifies directory
      ensures (directory.entries, result) == Created(settings, old(directory.entries), uuid, dn, attributes)
    {
      if dn !in settings.writable {
        return Err(ReadOnly);
      }
      var desired := DesiredState(attributes);
      if Mismatched(dn, attributes) {
        return Err(IncorrectMapping);
      }
      if settings.readOnly {
        return Err(ReadOnly);
      }
      result := directory.Add(uuid, dn, WithoutEmpty(desired) - dn.rdn.Keys);
    }

    method ModifyLdapObject(uuid: Uuid, changes: map<Name, Values>) returns (result: Result<(), Error>)
      requires uuid in directory.entries
      modifies directory
      ensures (directory.entries, result) == Modified(settings, old(directory.entries), uuid, changes)
      ensures changes == map[] ==> directory.operations == old(directory.operations)
    {
      var dn := directory.entries[uuid].dn;
      if dn !in settings.writable {
        return Ok(());
      }
      if changes == map[] {
        return Ok(());
      }
      var modifyChanges := ModifyChanges(dn.rdn, changes);
      if modifyChanges != map[] {
        if settings.readOnly {
          return Err(ReadOnly);
        }
        directory.Modify(uuid, modifyChanges);
      }
      if !OneValueEach(dn.rdn, changes) {
        return Err(NotOneValue);
      }
      var desiredRdn := DesiredRdn(dn.rdn, changes);
      if desiredRdn == dn.rdn {
        return Ok(());
      }
      if settings.readOnly {
        return Err(ReadOnly);
      }
      result := directory.ModifyDn(uuid, desiredRdn);
    }

    method EnsureLdapObject(dn: Dn, attributes: Attributes) returns (result: Result<Dn, Error>)
      requires Valid(directory.entries)
      modifies directory
      ensures (directory.entries, result) == Ensured(settings, old(directory.entries), dn, attributes)
      ensures WritesNothing(old(directory.entries), dn, attributes) ==>
        directory.operations == old(directory.operations)
    {
      hide Changes, DesiredState;
      var found := GetObjectByDn(dn);
      if found == None {
        return Err(NoSuchObject);
      }
      var uuid := found.value;
      var changes := Changes(directory.entries[uuid], DesiredState(attributes));
      var modified := ModifyLdapObject(uuid, changes);
      match modified {
        case Err(e) => return Err(e);
        case Ok(_) => return Ok(directory.entries[uuid].dn);
      }
    }
  }

  /** What keeps the naming attributes of a new entry from contradicting its name; the values of a
      name are compared as they are written there, escapes included. */
  predicate Mismatched(dn: Dn, attributes: Attributes) {
    exists a <- attributes :: a.1 != [] && Casefold(a.0) in dn.rdn && a.1 != [dn.rdn[Casefold(a.0)]]
  }

  /** No later key folds to the same name. */
  ghost predicate IsLast(attributes: Attributes, i: nat) {
    && i < |attributes|
    && forall j :: i < j < |attributes| ==> Casefold(attributes[j].0) != Casefold(attributes[i].0)
  }

  ghost predicate IsKey(attributes: Attributes, k: Name) {
    exists i :: 0 <= i < |attributes| && Casefold(attributes[i].0) == k
  }

  lemma {:induction false} DesiredKeys(attributes: Attributes, k: Name)
    ensures k in DesiredState(attributes) <==> IsKey(attributes, k)
  {
    hide Casefold;
    if attributes != [] {
      var n := |attributes| - 1;
      var init := attributes[..n];
      DesiredKeys(init, k);
      if IsKey(init, k) {
        var i :| 0 <= i < n && Casefold(init[i].0) == k;
        assert Casefold(attributes[i].0) == k;
      }
    }
  }

  lemma {:induction false} DesiredLast(attributes: Attributes, i: nat)
    requires IsLast(attributes, i)
    ensures Casefold(attributes[i].0) in DesiredState(attributes)
    ensures DesiredState(attributes)[Casefold(attributes[i].0)] == attributes[i].1
  {
    hide Casefold;
    var n := |attributes| - 1;
    if i < n {
      DesiredLast(attributes[..n], i);
    }
  }

  lemma {:induction false} LastOf(attributes: Attributes, i: nat)
    requires i < |attributes|
    ensures exists j: nat :: IsLast(attributes, j) && Casefold(attributes[j].0) == Casefold(attributes[i].0)
    decreases |attributes| - i
  {
    hide Casefold;
    if j :| i < j < |attributes| && Casefold(attributes[j].0) == Casefold(attributes[i].0) {
      LastOf(attributes, j);
    } else {
      assert IsLast(attributes, i);
    }
  }

  /** Every key is desired, with the values of the last one of its name, and nothing else. */
  lemma DesiredStateIs(attributes: Attributes)
    ensures forall k :: k in DesiredState(attributes) <==> IsKey(attributes, k)
    ensures forall i: nat | IsLast(attributes, i) ::
      Casefold(attributes[i].0) in DesiredState(attributes)
        && DesiredState(attributes)[Casefold(attributes[i].0)] == attributes[i].1
  {
    hide DesiredState, IsKey, Casefold;
    forall k { DesiredKeys(attributes, k); }
    forall i: nat | IsLast(attributes, i) { DesiredLast(attributes, i); }
  }

  /** The values of every key are there, unless a later key of the same name replaces them. */
  ghost predicate HasEveryKey(entry: Entry, attributes: Attributes) {
    forall i: nat | IsLast(attributes, i) :: ValuesOf(entry, Casefold(attributes[i].0)) == attributes[i].1
  }

  /** There is nothing to change exactly if the entry has the values of every key. */
  lemma NoChangesIff(entry: Entry, attributes: Attributes)
    ensures Changes(entry, DesiredState(attributes)) == map[] <==> HasEveryKey(entry, attributes)
  {
    DesiredStateIs(attributes);
    hide DesiredState, Casefold, ValuesOf;
    var desired := DesiredState(attributes);
    forall k <- desired ensures exists i: nat :: IsLast(attributes, i) && Casefold(attributes[i].0) == k {
      var i :| 0 <= i < |attributes| && Casefold(attributes[i].0) == k;
      LastOf(attributes, i);
    }
    hide IsLast;
    assert forall k <- desired :: ValuesOf(entry, k) != desired[k] <==> k in Changes(entry, desired);
  }

  /** What is desired comes from one of the keys. */
  lemma {:induction false} DesiredFrom(attributes: Attributes, k: Name)
    requires k in DesiredState(attributes)
    ensures exists a <- attributes :: Casefold(a.0) == k && a.1 == DesiredState(attributes)[k]
  {
    hide Casefold;
    var last := attributes[|attributes| - 1];
    if Casefold(last.0) != k {
      DesiredFrom(attributes[..|attributes| - 1], k);
    } else {
      assert last in attributes;
    }
  }

  /** The whole of `add_ldap_object`, where LDAP would give the new entry the unique id `uuid`. */
  function Created(settings: Settings, entries: Entries, uuid: Uuid, dn: Dn, attributes: Attributes)
    : (Entries, Result<(), Error>)
  {
    var desired := DesiredState(attributes);
    if dn !in settings.writable then (entries, Err(ReadOnly))
    else if Mismatched(dn, attributes) then (entries, Err(IncorrectMapping))
    else if settings.readOnly then (entries, Err(ReadOnly))
    else if Taken(entries, dn) then (entries, Err(EntryAlreadyExists))
    else (entries[uuid := Added(dn, WithoutEmpty(desired) - dn.rdn.Keys)], Ok(()))
  }

  ghost predicate WritesNothing(entries: Entries, dn: Dn, attributes: Attributes) {
    Find(entries, dn).Some? ==> Changes(entries[Find(entries, dn).value], DesiredState(attributes)) == map[]
  }

  // ---------------------------------------------------------------------------------------------
  // What the two operations do to one entry
  // ---------------------------------------------------------------------------------------------

  lemma ReplacedValues(entry: Entry, changes: map<Name, Values>, k: Name)
    ensures ValuesOf(Replaced(entry, changes), k) == if k in changes then changes[k] else ValuesOf(entry, k)
  {
  }

  lemma ModifyIsValid(entry: Entry, changes: map<Name, Values>)
    requires ValidEntry(entry)
    ensures ValidEntry(Replaced(entry, ModifyChanges(entry.dn.rdn, changes)))
  {
    var modifyChanges := ModifyChanges(entry.dn.rdn, changes);
    forall k <- entry.dn.rdn {
      ReplacedValues(entry, modifyChanges, k);
    }
  }

  lemma RenamedValues(entry: Entry, rdn: map<Name, string>, k: Name)
    requires rdn.Keys == entry.dn.rdn.Keys
    ensures ValuesOf(Renamed(entry, rdn), k) == if k in rdn then [UnescapeRdn(rdn[k])] else ValuesOf(entry, k)
  {
  }

  /** The naming value a rename gives an attribute is the desired one, or the one it had. */
  lemma DesiredRdnValue(entry: Entry, changes: map<Name, Values>, k: Name)
    requires ValidEntry(entry) && OneValueEach(entry.dn.rdn, changes) && k in entry.dn.rdn
    ensures var text := DesiredRdn(entry.dn.rdn, changes)[k];
            var values := if k in changes then changes[k] else ValuesOf(entry, k);
            [UnescapeRdn(text)] == values && text == EscapeRdn(values[0])
  {
    var values := if k in changes then changes[k] else ValuesOf(entry, k);
    UnescapeEscaped(values[0], 0);
    assert values[0][0..] == values[0];
  }

  lemma RenameIsValid(entry: Entry, changes: map<Name, Values>)
    requires ValidEntry(entry) && OneValueEach(entry.dn.rdn, changes)
    ensures ValidEntry(Renamed(entry, DesiredRdn(entry.dn.rdn, changes)))
  {
    var rdn := DesiredRdn(entry.dn.rdn, changes);
    forall k <- rdn
      ensures ValuesOf(Renamed(entry, rdn), k) == [UnescapeRdn(rdn[k])] && rdn[k] == EscapeRdn(UnescapeRdn(rdn[k]))
    {
      RenamedValues(entry, rdn, k);
      DesiredRdnValue(entry, changes, k);
    }
  }

  /** The entry after both operations. */
  ghost function Written(entry: Entry, changes: map<Name, Values>): Entry
    requires OneValueEach(entry.dn.rdn, changes)
  {
    Renamed(Replaced(entry, ModifyChanges(entry.dn.rdn, changes)), DesiredRdn(entry.dn.rdn, changes))
  }

  lemma WrittenValues(entry: Entry, changes: map<Name, Values>, k: Name)
    requires ValidEntry(entry) && OneValueEach(entry.dn.rdn, changes)
    ensures ValuesOf(Written(entry, changes), k) == if k in changes then changes[k] else ValuesOf(entry, k)
  {
    var modified := Replaced(entry, ModifyChanges(entry.dn.rdn, changes));
    ReplacedValues(entry, ModifyChanges(entry.dn.rdn, changes), k);
    RenamedValues(modified, DesiredRdn(entry.dn.rdn, changes), k);
    if k in entry.dn.rdn {
      DesiredRdnValue(entry, changes, k);
    }
  }

  /** A naming attribute that changes changes the name. */
  lemma NameChangesIff(entry: Entry, desired: map<Name, Values>)
    requires ValidEntry(entry) && OneValueEach(entry.dn.rdn, Changes(entry, desired))
    ensures var changes := Changes(entry, desired);
            DesiredRdn(entry.dn.rdn, changes) == entry.dn.rdn <==> changes.Keys !! entry.dn.rdn.Keys
  {
    var changes := Changes(entry, desired);
    forall k <- entry.dn.rdn
      ensures DesiredRdn(entry.dn.rdn, changes)[k] == entry.dn.rdn[k] <==> k !in changes
    {
      if k in changes && EscapeRdn(changes[k][0]) == EscapeRdn(ValuesOf(entry, k)[0]) {
        EscapeIsInjective(changes[k][0], ValuesOf(entry, k)[0]);
      }
    }
  }

  // ---------------------------------------------------------------------------------------------
  // What one call achieves
  // ---------------------------------------------------------------------------------------------

  lemma ReplacingNothing(entry: Entry)
    ensures Replaced(entry, map[]) == entry
  {
    assert entry.attributes - {} + WithoutEmpty(map[]) == entry.attributes;
  }

  lemma RenamingToTheSame(entry: Entry)
    requires ValidEntry(entry)
    ensures Renamed(entry, entry.dn.rdn) == entry
  {
    var renamed := Renamed(entry, entry.dn.rdn);
    forall k <- entry.dn.rdn
      ensures k in entry.attributes && renamed.attributes[k] == entry.attributes[k]
    {
      DesiredRdnValue(entry, map[], k);
    }
    assert renamed.attributes.Keys == entry.attributes.Keys;
  }

  lemma ReplaceEntryKeepsValid(entries: Entries, u: Uuid, entry: Entry)
    requires Valid(entries) && u in entries && ValidEntry(entry)
    requires forall v <- entries :: v != u ==> entries[v].dn != entry.dn
    ensures Valid(entries[u := entry])
  {
    hide ValidEntry;
  }

  lemma AfterModifyIs(entries: Entries, u: Uuid, changes: map<Name, Values>)
    requires Valid(entries) && u in entries
    ensures AfterModify(entries, u, changes)
         == entries[u := Replaced(entries[u], ModifyChanges(entries[u].dn.rdn, changes))]
    ensures Valid(AfterModify(entries, u, changes))
  {
    ReplacingNothing(entries[u]);
    ModifyIsValid(entries[u], changes);
    hide ValidEntry, Replaced;
    assert Replaced(entries[u], ModifyChanges(entries[u].dn.rdn, changes)).dn == entries[u].dn by {
      ReplacedKeepsDn(entries[u], ModifyChanges(entries[u].dn.rdn, changes));
    }
    ReplaceEntryKeepsValid(entries, u, Replaced(entries[u], ModifyChanges(entries[u].dn.rdn, changes)));
    assert entries[u := entries[u]] == entries;
  }

  lemma ReplacedKeepsDn(entry: Entry, changes: map<Name, Values>)
    ensures Replaced(entry, changes).dn == entry.dn
  {
  }

  lemma AfterRenameShape(settings: Settings, entries: Entries, u: Uuid, changes: map<Name, Values>)
    requires u in entries
    ensures var (after, result) := AfterRename(settings, entries, u, changes);
            && (result.Err? ==> after == entries)
            && (result.Ok? ==>
                  && OneValueEach(entries[u].dn.rdn, changes)
                  && var rdn := DesiredRdn(entries[u].dn.rdn, changes);
                     || (rdn == entries[u].dn.rdn && after == entries)
                     || (!Taken(entries, entries[u].dn.(rdn := rdn))
                       && after == entries[u := Renamed(entries[u], rdn)]))
  {
    hide Renamed, DesiredRdn, OneValueEach, Taken;
  }

  lemma AfterRenameIs(settings: Settings, entries: Entries, u: Uuid, changes: map<Name, Values>)
    requires Valid(entries) && u in entries
    ensures var (after, result) := AfterRename(settings, entries, u, changes);
            && Valid(after)
            && (result.Err? ==> after == entries)
            && (result.Ok? ==>
                  && OneValueEach(entries[u].dn.rdn, changes)
                  && after == entries[u := Renamed(entries[u], DesiredRdn(entries[u].dn.rdn, changes))])
  {
    AfterRenameShape(settings, entries, u, changes);
    var (after, result) := AfterRename(settings, entries, u, changes);
    hide AfterRename;
    if result.Ok? {
      var rdn := DesiredRdn(entries[u].dn.rdn, changes);
      RenameIsValid(entries[u], changes);
      RenamingToTheSame(entries[u]);
      RenamedHasDn(entries[u], rdn);
      hide ValidEntry, Renamed, DesiredRdn, OneValueEach;
      if !Taken(entries, entries[u].dn.(rdn := rdn)) {
        ReplaceEntryKeepsValid(entries, u, Renamed(entries[u], rdn));
      } else {
        assert entries[u := entries[u]] == entries;
      }
    }
  }

  lemma RenamedHasDn(entry: Entry, rdn: map<Name, string>)
    ensures Renamed(entry, rdn).dn == entry.dn.(rdn := rdn)
  {
  }

  lemma FindIs(entries: Entries, u: Uuid)
    requires Valid(entries) && u in entries
    ensures Find(entries, entries[u].dn) == Some(u)
  {
    hide ValidEntry;
    assert Taken(entries, entries[u].dn);
  }

  /** The two operations together, short of a name that cannot be had. */
  lemma ModifiedIs(settings: Settings, entries: Entries, u: Uuid, changes: map<Name, Values>)
    requires Valid(entries) && u in entries
    ensures var (after, result) := Modified(settings, entries, u, changes);
            && Valid(after)
            && after.Keys == entries.Keys
            && (forall v <- entries :: v != u ==> after[v] == entries[v])
            && (result.Ok? && entries[u].dn in settings.writable ==>
                  && OneValueEach(entries[u].dn.rdn, changes)
                  && after == entries[u := Written(entries[u], changes)])
  {
    if changes == map[] {
      WritingNothing(entries[u], changes);
      hide Valid, Written;
      assert entries[u := entries[u]] == entries;
    } else {
      hide Valid, AfterModify, AfterRename, OneValueEach, Written, ModifyChanges;
      AfterModifyIs(entries, u, changes);
      BothOperations(settings, entries, u, changes);
    }
  }

  lemma WritingNothing(entry: Entry, changes: map<Name, Values>)
    requires ValidEntry(entry) && changes == map[]
    ensures Written(entry, changes) == entry
  {
    ReplacingNothing(entry);
    RenamingToTheSame(entry);
    assert ModifyChanges(entry.dn.rdn, changes) == map[];
    assert DesiredRdn(entry.dn.rdn, changes) == entry.dn.rdn;
  }

  lemma BothOperations(settings: Settings, entries: Entries, u: Uuid, changes: map<Name, Values>)
    requires Valid(entries) && u in entries
    ensures var (after, result) := AfterRename(settings, AfterModify(entries, u, changes), u, changes);
            && Valid(after)
            && after.Keys == entries.Keys
            && (forall v <- entries :: v != u ==> after[v] == entries[v])
            && (result.Ok? ==>
                  && OneValueEach(entries[u].dn.rdn, changes)
                  && after == entries[u := Written(entries[u], changes)])
  {
    hide Valid, AfterModify, AfterRename, Replaced, Renamed, DesiredRdn, ModifyChanges, OneValueEach;
    AfterModifyIs(entries, u, changes);
    var modified := AfterModify(entries, u, changes);
    ReplacedKeepsDn(entries[u], ModifyChanges(entries[u].dn.rdn, changes));
    AfterRenameIs(settings, modified, u, changes);
    var (after, result) := AfterRename(settings, modified, u, changes);
    if result.Ok? {
      assert after == modified[u := Written(entries[u], changes)] == entries[u := Written(entries[u], changes)];
    } else {
      assert after == modified;
    }
  }

  lemma EnsuredIs(settings: Settings, entries: Entries, u: Uuid, attributes: Attributes)
    requires Valid(entries) && u in entries
    ensures var (after, result) := Ensured(settings, entries, entries[u].dn, attributes);
            var (modified, outcome) := Modified(settings, entries, u, Changes(entries[u], DesiredState(attributes)));
            && after == modified
            && u in after
            && (result.Ok? <==> outcome.Ok?)
            && (result.Ok? ==> result.value == after[u].dn)
            && (result.Err? ==> result == Err(outcome.error))
  {
    FindIs(entries, u);
    hide Find, Changes, DesiredState;
    ModifiedIs(settings, entries, u, Changes(entries[u], DesiredState(attributes)));
    hide Modified, Valid;
  }

  /** No call, failing or not, spoils the directory or touches another entry. */
  lemma EnsureKeepsValid(settings: Settings, entries: Entries, dn: Dn, attributes: Attributes)
    requires Valid(entries)
    ensures var after := Ensured(settings, entries, dn, attributes).0;
            && Valid(after)
            && after.Keys == entries.Keys
            && forall v <- entries :: entries[v].dn != dn ==> after[v] == entries[v]
  {
    var found := Find(entries, dn);
    hide Find, Modified, Valid, Changes, DesiredState, ModifyChanges, DesiredRdn, Replaced, Renamed, OneValueEach;
    if found.Some? {
      EnsuredIs(settings, entries, found.value, attributes);
      ModifiedIs(settings, entries, found.value, Changes(entries[found.value], DesiredState(attributes)));
      hide Ensured;
    }
  }

  /** The name an entry is to have, given single values for its naming attributes. */
  ghost function TargetDn(entry: Entry, desired: map<Name, Values>): Dn
    requires OneValueEach(entry.dn.rdn, Changes(entry, desired))
  {
    entry.dn.(rdn := DesiredRdn(entry.dn.rdn, Changes(entry, desired)))
  }

  ghost predicate CanHaveName(entries: Entries, u: Uuid, desired: map<Name, Values>)
    requires u in entries
  {
    && OneValueEach(entries[u].dn.rdn, Changes(entries[u], desired))
    && forall v <- entries :: v != u ==> entries[v].dn != TargetDn(entries[u], desired)
  }

  /** On a writable entry a call succeeds exactly when every naming attribute to be changed is given
      one value and no other entry has the resulting name. */
  lemma EnsureSucceedsIff(settings: Settings, entries: Entries, u: Uuid, attributes: Attributes)
    requires Valid(entries) && u in entries
    requires entries[u].dn in settings.writable && !settings.readOnly
    ensures var desired := DesiredState(attributes);
            (Ensured(settings, entries, entries[u].dn, attributes).1.Ok? <==> CanHaveName(entries, u, desired))
  {
    hide DesiredState;
    var dn := entries[u].dn;
    var changes := Changes(entries[u], DesiredState(attributes));
    assert Find(entries, dn) == Some(u);
    hide Changes, Valid, Find;
    NamesAfterModify(entries, u, changes);
    hide AfterModify;
    if OneValueEach(dn.rdn, changes) && changes == map[] {
      assert DesiredRdn(dn.rdn, changes) == dn.rdn;
    }
  }

  /** Replacing attributes changes no name. */
  lemma NamesAfterModify(entries: Entries, u: Uuid, changes: map<Name, Values>)
    requires Valid(entries) && u in entries
    ensures var after := AfterModify(entries, u, changes);
      after.Keys == entries.Keys && (forall v <- after :: after[v].dn == entries[v].dn)
      && forall dn :: Taken(after, dn) <==> Taken(entries, dn)
  {
    AfterModifyIs(entries, u, changes);
    hide AfterModify, Valid;
    var after := AfterModify(entries, u, changes);
    assert forall v <- after :: after[v].dn == entries[v].dn;
  }

  /** A call that succeeds on a writable entry leaves exactly the two operations' effect. */
  lemma EnsureWrites(settings: Settings, entries: Entries, u: Uuid, attributes: Attributes)
    requires Valid(entries) && u in entries
    requires entries[u].dn in settings.writable
    requires Ensured(settings, entries, entries[u].dn, attributes).1.Ok?
    ensures var changes := Changes(entries[u], DesiredState(attributes));
            && OneValueEach(entries[u].dn.rdn, changes)
            && Ensured(settings, entries, entries[u].dn, attributes)
            == (entries[u := Written(entries[u], changes)], Ok(Written(entries[u], changes).dn))
  {
    var changes := Changes(entries[u], DesiredState(attributes));
    hide Find, Modified, Valid, Changes, DesiredState, ModifyChanges, DesiredRdn, Replaced, Renamed, OneValueEach;
    hide Ensured;
    EnsuredIs(settings, entries, u, attributes);
    ModifiedIs(settings, entries, u, changes);
  }

  /** A call that succeeds on a writable entry gives it exactly the desired values of the desired
      attributes and leaves all its other attributes alone; what it returns names that entry. */
  lemma EnsureSetsExactly(settings: Settings, entries: Entries, u: Uuid, attributes: Attributes)
    requires Valid(entries) && u in entries
    requires entries[u].dn in settings.writable
    requires Ensured(settings, entries, entries[u].dn, attributes).1.Ok?
    ensures var (after, result) := Ensured(settings, entries, entries[u].dn, attributes);
            var desired := DesiredState(attributes);
            && Find(after, result.value) == Some(u)
            && forall k :: ValuesOf(after[u], k) == if k in desired then desired[k] else ValuesOf(entries[u], k)
    ensures var after := Ensured(settings, entries, entries[u].dn, attributes).0;
            && HasEveryKey(after[u], attributes)
            && forall k :: !IsKey(attributes, k) ==> ValuesOf(after[u], k) == ValuesOf(entries[u], k)
  {
    DesiredStateIs(attributes);
    var (after, result) := Ensured(settings, entries, entries[u].dn, attributes);
    var changes := Changes(entries[u], DesiredState(attributes));
    EnsureWrites(settings, entries, u, attributes);
    EnsureKeepsValid(settings, entries, entries[u].dn, attributes);
    FindIs(after, u);
    hide Ensured, Written, Valid, OneValueEach, Find, DesiredState, IsKey, IsLast, Casefold;
    forall k
      ensures ValuesOf(after[u], k) == if k in changes then changes[k] else ValuesOf(entries[u], k)
    {
      WrittenValues(entries[u], changes, k);
    }
  }

  /** Where nothing may be written, nothing is: outside the writable places without an error, and on a
      read-only directory with one if there would be something to write. */
  lemma NothingIsWritten(settings: Settings, entries: Entries, u: Uuid, attributes: Attributes)
    requires Valid(entries) && u in entries
    ensures entries[u].dn !in settings.writable ==>
      Ensured(settings, entries, entries[u].dn, attributes) == (entries, Ok(entries[u].dn))
    ensures settings.readOnly ==> Ensured(settings, entries, entries[u].dn, attributes).0 == entries
    ensures settings.readOnly && entries[u].dn in settings.writable ==>
      (Ensured(settings, entries, entries[u].dn, attributes).1.Ok? <==> HasEveryKey(entries[u], attributes))
  {
    FindIs(entries, u);
    NoChangesIff(entries[u], attributes);
    var changes := Changes(entries[u], DesiredState(attributes));
    if OneValueEach(entries[u].dn.rdn, changes) {
      NameChangesIff(entries[u], DesiredState(attributes));
    }
    hide Find, DesiredState, Valid, HasEveryKey, Changes, DesiredRdn, Replaced, OneValueEach;
    var rdn := entries[u].dn.rdn;
    assert changes == map[] <==> ModifyChanges(rdn, changes) == map[] && changes.Keys !! rdn.Keys by {
      assert forall k <- changes :: k in rdn || k in ModifyChanges(rdn, changes);
    }
  }

  /** Calling again on the name the first call returned writes nothing. */
  lemma SecondEnsureWritesNothing(settings: Settings, entries: Entries, u: Uuid, attributes: Attributes)
    requires Valid(entries) && u in entries
    requires entries[u].dn in settings.writable
    requires Ensured(settings, entries, entries[u].dn, attributes).1.Ok?
    ensures var (after, result) := Ensured(settings, entries, entries[u].dn, attributes);
            && WritesNothing(after, result.value, attributes)
            && Ensured(settings, after, result.value, attributes) == (after, result)
  {
    var (after, result) := Ensured(settings, entries, entries[u].dn, attributes);
    EnsureSetsExactly(settings, entries, u, attributes);
    assert Changes(after[u], DesiredState(attributes)) == map[];
  }

  /** A crash after the attribute replacement, before the rename, is repaired by running again: the
      rerun ends where the uninterrupted call would have, and fails just when that would have. */
  lemma RerunAfterCrash(settings: Settings, entries: Entries, u: Uuid, attributes: Attributes)
    requires Valid(entries) && u in entries
    requires entries[u].dn in settings.writable && !settings.readOnly
    ensures var crashed := AfterModify(entries, u, Changes(entries[u], DesiredState(attributes)));
            Ensured(settings, crashed, entries[u].dn, attributes) ==
              Ensured(settings, entries, entries[u].dn, attributes)
  {
    var entry := entries[u];
    var desired := DesiredState(attributes);
    var changes := Changes(entry, desired);
    var crashed := AfterModify(entries, u, changes);
    AfterModifyIs(entries, u, changes);
    ReplacedKeepsDn(entry, ModifyChanges(entry.dn.rdn, changes));
    RestOfChanges(entry, desired);
    RerunModifies(settings, entries, u, changes, Changes(crashed[u], desired));
    hide Valid, Modified, Ensured, Changes, DesiredState, AfterModify, Replaced;
    EnsuredIs(settings, entries, u, attributes);
    EnsuredIs(settings, crashed, u, attributes);
  }

  lemma RerunModifies(settings: Settings, entries: Entries, u: Uuid, changes: map<Name, Values>,
                      rest: map<Name, Values>)
    requires u in entries && entries[u].dn in settings.writable && !settings.readOnly
    requires AfterModify(entries, u, changes)[u].dn == entries[u].dn
    requires var rdn := entries[u].dn.rdn;
             && ModifyChanges(rdn, rest) == map[]
             && (forall k :: k in rest <==> k in changes && k in rdn)
             && (OneValueEach(rdn, rest) <==> OneValueEach(rdn, changes))
             && (OneValueEach(rdn, rest) ==> DesiredRdn(rdn, rest) == DesiredRdn(rdn, changes))
    ensures Modified(settings, AfterModify(entries, u, changes), u, rest) == Modified(settings, entries, u, changes)
  {
    var crashed := AfterModify(entries, u, changes);
    assert AfterModify(crashed, u, rest) == crashed;
    assert AfterRename(settings, crashed, u, rest) == AfterRename(settings, crashed, u, changes);
    if rest == map[] {
      assert OneValueEach(entries[u].dn.rdn, changes);
      assert DesiredRdn(entries[u].dn.rdn, rest) == entries[u].dn.rdn;
    }
    hide Replaced, Renamed, Taken, DesiredRdn, OneValueEach, AfterRename;
  }

  /** What is left to change after the attribute replacement: the naming attributes. */
  lemma RestOfChanges(entry: Entry, desired: map<Name, Values>)
    requires ValidEntry(entry)
    ensures var changes := Changes(entry, desired);
            var rest := Changes(Replaced(entry, ModifyChanges(entry.dn.rdn, changes)), desired);
            && (forall k :: k in rest <==> k in changes && k in entry.dn.rdn)
            && ModifyChanges(entry.dn.rdn, rest) == map[]
            && (OneValueEach(entry.dn.rdn, rest) <==> OneValueEach(entry.dn.rdn, changes))
            && (OneValueEach(entry.dn.rdn, rest) ==>
              DesiredRdn(entry.dn.rdn, rest) == DesiredRdn(entry.dn.rdn, changes))
  {
    var changes := Changes(entry, desired);
    var modifyChanges := ModifyChanges(entry.dn.rdn, changes);
    forall k
      ensures ValuesOf(Replaced(entry, modifyChanges), k) ==
        if k in modifyChanges then changes[k] else ValuesOf(entry, k)
    {
      ReplacedValues(entry, modifyChanges, k);
    }
  }

  /** The entry a creation leaves, and the only one of its name. */
  lemma EntryAfterCreate(settings: Settings, entries: Entries, u: Uuid, dn: Dn, attributes: Attributes)
    requires u !in entries && Created(settings, entries, u, dn, attributes).1.Ok?
    ensures var after := Created(settings, entries, u, dn, attributes).0;
            var desired := DesiredState(attributes);
            && Find(after, dn) == Some(u)
            && after[u] == Added(dn, WithoutEmpty(desired) - dn.rdn.Keys)
            && forall k <- desired :: k in dn.rdn ==> desired[k] == [] || desired[k] == [dn.rdn[k]]
  {
    forall k <- DesiredState(attributes) | k in dn.rdn
      ensures DesiredState(attributes)[k] == [] || DesiredState(attributes)[k] == [dn.rdn[k]]
    {
      DesiredFrom(attributes, k);
      assert !Mismatched(dn, attributes);
    }
    hide DesiredState, WithoutEmpty, Mismatched;
    var after := Created(settings, entries, u, dn, attributes).0;
    assert !Taken(entries, dn);
    assert after[u].dn == dn && forall v <- after :: after[v].dn == dn ==> v == u;
    assert Taken(after, dn) && Find(after, dn).Some?;
  }

  /** A creation succeeds exactly if the name may be written and is free, and every key of the name that
      has values has the one text of the name. */
  lemma CreateSucceedsIff(settings: Settings, entries: Entries, u: Uuid, dn: Dn, attributes: Attributes)
    ensures var result := Created(settings, entries, u, dn, attributes).1;
            && (result.Ok? <==>
              && dn in settings.writable && !settings.readOnly && (forall v <- entries :: entries[v].dn != dn)
              && AgreesWithName(dn, attributes))
            && (result == Err(IncorrectMapping) <==> dn in settings.writable && !AgreesWithName(dn, attributes))
            && (result == Err(EntryAlreadyExists) ==> exists v <- entries :: entries[v].dn == dn)
    ensures Created(settings, entries, u, dn, attributes).1.Err? ==>
      Created(settings, entries, u, dn, attributes).0 == entries
  {
    hide DesiredState, Added, WithoutEmpty, Casefold;
    assert AgreesWithName(dn, attributes) <==> !Mismatched(dn, attributes);
  }

  ghost predicate AgreesWithName(dn: Dn, attributes: Attributes) {
    forall i, k :: 0 <= i < |attributes| && k in dn.rdn && Casefold(attributes[i].0) == k ==>
      attributes[i].1 == [] || attributes[i].1 == [dn.rdn[k]]
  }

  /** The values of every key outside the name, the naming values without the escapes, and nothing else. */
  ghost predicate IsAsCreated(entry: Entry, dn: Dn, attributes: Attributes) {
    && (forall k <- dn.rdn :: ValuesOf(entry, k) == [UnescapeRdn(dn.rdn[k])])
    && (forall i: nat :: IsLast(attributes, i) && Casefold(attributes[i].0) !in dn.rdn ==>
          ValuesOf(entry, Casefold(attributes[i].0)) == attributes[i].1)
    && (forall k :: k !in dn.rdn && !IsKey(attributes, k) ==> ValuesOf(entry, k) == [])
  }

  lemma AddedIsAsCreated(dn: Dn, attributes: Attributes)
    ensures IsAsCreated(Added(dn, WithoutEmpty(DesiredState(attributes)) - dn.rdn.Keys), dn, attributes)
  {
    DesiredStateIs(attributes);
    hide DesiredState, IsKey, IsLast, Casefold, UnescapeRdn, Added, WithoutEmpty, ValuesOf;
    forall k { AddedValues(dn, DesiredState(attributes), k); }
  }

  /** A creation that succeeds leaves such an entry of that name, and changes no other entry. */
  lemma CreateSetsExactly(settings: Settings, entries: Entries, u: Uuid, dn: Dn, attributes: Attributes)
    requires u !in entries && Created(settings, entries, u, dn, attributes).1.Ok?
    ensures var after := Created(settings, entries, u, dn, attributes).0;
            && Find(after, dn) == Some(u) && after.Keys == entries.Keys + {u}
            && (forall v <- entries :: after[v] == entries[v])
            && IsAsCreated(after[u], dn, attributes)
  {
    EntryAfterCreate(settings, entries, u, dn, attributes);
    CreatedShape(settings, entries, u, dn, attributes);
    AddedIsAsCreated(dn, attributes);
    hide Created, DesiredState, Find, IsAsCreated, Added, WithoutEmpty;
  }

  lemma AddedValues(dn: Dn, desired: map<Name, Values>, k: Name)
    ensures ValuesOf(Added(dn, WithoutEmpty(desired) - dn.rdn.Keys), k) ==
      if k in dn.rdn then [UnescapeRdn(dn.rdn[k])] else if k in desired then desired[k] else []
  {
    hide UnescapeRdn;
  }

  lemma ChangesAfterCreate(dn: Dn, desired: map<Name, Values>, k: Name)
    requires k in desired
    ensures var entry := Added(dn, WithoutEmpty(desired) - dn.rdn.Keys);
            k in Changes(entry, desired) <==> k in dn.rdn && desired[k] != [UnescapeRdn(dn.rdn[k])]
  {
    hide UnescapeRdn;
  }

  /** Handling an entry right after its creation writes nothing exactly when its naming attributes, as
      far as desired, are desired in the form they have without any escaping. */
  lemma EnsureAfterCreateIff(settings: Settings, entries: Entries, u: Uuid, dn: Dn, attributes: Attributes)
    requires Valid(entries) && u !in entries
    requires Created(settings, entries, u, dn, attributes).1.Ok?
    ensures var after := Created(settings, entries, u, dn, attributes).0;
            var desired := DesiredState(attributes);
            WritesNothing(after, dn, attributes) <==>
              forall k <- desired :: k in dn.rdn ==> desired[k] != [] && UnescapeRdn(dn.rdn[k]) == dn.rdn[k]
  {
    EntryAfterCreate(settings, entries, u, dn, attributes);
    hide Created, DesiredState, Find, Changes, Added, WithoutEmpty, UnescapeRdn, Valid;
    var desired := DesiredState(attributes);
    var changes := Changes(Added(dn, WithoutEmpty(desired) - dn.rdn.Keys), desired);
    forall k <- desired
      ensures k in changes <==> k in dn.rdn && desired[k] != [UnescapeRdn(dn.rdn[k])]
    {
      ChangesAfterCreate(dn, desired, k);
    }
    assert changes == map[] <==> forall k <- desired :: k !in changes by {
      ChangesAreDesired(Added(dn, WithoutEmpty(desired) - dn.rdn.Keys), desired);
    }
  }

  lemma ChangesAreDesired(entry: Entry, desired: map<Name, Values>)
    ensures Changes(entry, desired).Keys <= desired.Keys
  {
  }

  /** The first call after a creation whose name needs escaping does write. */
  lemma EscapedNameIsRewritten(uuid: Uuid)
    ensures var dn := Dn(map["cn" := "a\\,b"], "");
            var settings, attributes := Settings(false, {dn}), [("cn", ["a\\,b"])];
            && Created(settings, map[], uuid, dn, attributes).1 == Ok(())
            && !WritesNothing(Created(settings, map[], uuid, dn, attributes).0, dn, attributes)
  {
    var dn := Dn(map["cn" := "a\\,b"], "");
    var settings, attributes := Settings(false, {dn}), [("cn", ["a\\,b"])];
    assert attributes[..0] == [] && Casefold("cn") == "cn";
    var desired := DesiredState(attributes);
    assert desired == map["cn" := ["a\\,b"]];
    assert !Mismatched(dn, attributes);
    assert !Taken(map[], dn) && Created(settings, map[], uuid, dn, attributes).1 == Ok(());
    assert |UnescapeRdn("a\\,b")| == 3 by {
      assert "a\\,b"[1..] == "\\,b" && "\\,b"[2..] == "b" && "b"[1..] == "";
    }
    assert "cn" in desired && "cn" in dn.rdn && UnescapeRdn(dn.rdn["cn"]) != dn.rdn["cn"];
    EnsureAfterCreateIff(settings, map[], uuid, dn, attributes);
  }

  lemma AddedIsValidIff(dn: Dn, attributes: map<Name, Values>)
    requires forall k <- attributes :: attributes[k] != []
    ensures ValidEntry(Added(dn, attributes)) <==> forall k <- dn.rdn :: dn.rdn[k] == EscapeRdn(UnescapeRdn(dn.rdn[k]))
  {
    hide EscapeRdn, UnescapeRdn;
  }

  /** A creation leaves the directory well formed exactly if every naming text is its value as escaped. */
  lemma CreateKeepsValidIff(settings: Settings, entries: Entries, u: Uuid, dn: Dn, attributes: Attributes)
    requires Valid(entries) && u !in entries
    requires Created(settings, entries, u, dn, attributes).1.Ok?
    ensures Valid(Created(settings, entries, u, dn, attributes).0)
       <==> forall k <- dn.rdn :: dn.rdn[k] == EscapeRdn(UnescapeRdn(dn.rdn[k]))
  {
    EntryAfterCreate(settings, entries, u, dn, attributes);
    CreatedShape(settings, entries, u, dn, attributes);
    var added := WithoutEmpty(DesiredState(attributes)) - dn.rdn.Keys;
    hide Created, DesiredState, EscapeRdn, UnescapeRdn, Find;
    AddedIsValidIff(dn, added);
    hide WithoutEmpty;
    NewEntryKeepsValidIff(entries, u, Added(dn, added));
  }

  lemma CreatedShape(settings: Settings, entries: Entries, u: Uuid, dn: Dn, attributes: Attributes)
    requires Created(settings, entries, u, dn, attributes).1.Ok?
    ensures !Taken(entries, dn)
    ensures Created(settings, entries, u, dn, attributes).0
         == entries[u := Added(dn, WithoutEmpty(DesiredState(attributes)) - dn.rdn.Keys)]
  {
    hide DesiredState, WithoutEmpty, Added, Mismatched, Taken;
  }

  lemma NewEntryKeepsValidIff(entries: Entries, u: Uuid, entry: Entry)
    requires Valid(entries) && u !in entries && !Taken(entries, entry.dn)
    ensures Valid(entries[u := entry]) <==> ValidEntry(entry)
  {
    hide ValidEntry;
    var after := entries[u := entry];
    assert after[u] == entry && forall v <- entries :: after[v] == entries[v] && entries[v].dn != entry.dn;
  }

  /** With a name escaped as it should be, a creation that desires naming values in their plain form is
      refused exactly if one of them needs escaping. */
  lemma PlainNameIsRefusedIff(settings: Settings, entries: Entries, u: Uuid, dn: Dn, values: map<Name, Value>,
                              attributes: Attributes)
    requires dn in settings.writable && values.Keys == dn.rdn.Keys
    requires forall k <- values :: dn.rdn[k] == EscapeRdn(values[k])
    requires forall a <- attributes :: Casefold(a.0) in values ==> a.1 == [values[Casefold(a.0)]]
    ensures Created(settings, entries, u, dn, attributes).1 == Err(IncorrectMapping)
       <==> exists a <- attributes ::
         Casefold(a.0) in values && EscapeRdn(values[Casefold(a.0)]) != values[Casefold(a.0)]
  {
    hide DesiredState, EscapeRdn, Casefold;
    forall a <- attributes | Casefold(a.0) in values
      ensures a.1 != [dn.rdn[Casefold(a.0)]] <==> EscapeRdn(values[Casefold(a.0)]) != values[Casefold(a.0)]
    {
    }
  }
}
