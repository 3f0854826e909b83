/** The choice of one LDAP account among candidates (mo_ldap_import_export/ldap.py:345-448, 478-567). */
module Discriminator {
  import opened Wrappers

  type Dn = string

  /** What an attribute of a loaded account may hold. */
  datatype Field = Text(text: string) | Number(number: int) | Many(texts: seq<string>)

  datatype LdapObject = LdapObject(dn: Dn, fields: map<string, Field>)

  /** The single value a template gets to see for a field. */
  datatype Scalar = NoValue | TextValue(text: string) | NumberValue(number: int)

  type Mapping = map<string, Scalar>

  datatype Error = MissingFields | TooManyValues | NotOneAccount | Ambiguous

  /** A rendered template that says "True" or does not; rendering is given from outside. */
  type Template = (Dn, Mapping) -> bool

  datatype Settings = Settings(filter: Option<Template>, fields: seq<string>, values: seq<Template>)

  /** What the settings validators enforce. */
  predicate ValidSettings(settings: Settings) {
    && (settings.filter.Some? ==> settings.fields != [])
    && (settings.fields != [] ==> settings.values != [])
  }

  function ObjectToDiscriminator(account: LdapObject, field: string): Result<Scalar, Error> {
    if field !in account.fields then Ok(NoValue)
    else match account.fields[field]
      case Text(text) => Ok(TextValue(text))
      case Number(number) => Ok(NumberValue(number))
      case Many(texts) =>
        if texts == [] then Ok(NoValue)
        else if |texts| == 1 then Ok(TextValue(texts[0]))
        else Err(TooManyValues)
  }

  function MappingOf(account: LdapObject, fields: seq<string>): Mapping {
    map f <- fields | ObjectToDiscriminator(account, f).Ok? :: ObjectToDiscriminator(account, f).value
  }

  /** Why the mapping of some candidates cannot be calculated, if it cannot. */
  function MappingError(objects: seq<LdapObject>, fields: seq<string>): Option<Error> {
    if exists o <- objects, f <- fields :: f !in o.fields then Some(MissingFields)
    else if exists o <- objects, f <- fields :: ObjectToDiscriminator(o, f).Err? then Some(TooManyValues)
    else None
  }

  function Passes(template: Template, fields: seq<string>, account: LdapObject): bool {
    template(account.dn, MappingOf(account, fields))
  }

  /** The names of the candidates a template accepts. */
  function Matches(template: Template, fields: seq<string>, objects: seq<LdapObject>): set<Dn> {
    set o <- objects | Passes(template, fields, o) :: o.dn
  }

  function Passing(template: Template, fields: seq<string>, objects: seq<LdapObject>): (passing: seq<LdapObject>)
    ensures forall o :: o in passing <==> o in objects && Passes(template, fields, o)
  {
    if objects == [] then []
    else (if Passes(template, fields, objects[0]) then [objects[0]] else []) + Passing(template, fields, objects[1..])
  }

  function FilterDns(settings: Settings, objects: seq<LdapObject>): Result<seq<LdapObject>, Error> {
    if settings.filter.None? then Ok(objects)
    else match MappingError(objects, settings.fields)
      case Some(e) => Err(e)
      case None => Ok(Passing(settings.filter.value, settings.fields, objects))
  }

  /** A name stands for one account: lookups keep one candidate a name
      (mo_ldap_import_export/dataloaders.py:260). */
  predicate Coherent(objects: seq<LdapObject>) {
    forall o <- objects, p <- objects :: o.dn == p.dn ==> o == p
  }

  /** The candidate of a name (the dictionary `dn_to_obj`); the last one, if there are several. */
  function ObjectOf(objects: seq<LdapObject>, dn: Dn): (account: LdapObject)
    requires exists o <- objects :: o.dn == dn
    ensures account in objects && account.dn == dn
  {
    var last := |objects| - 1;
    if objects[last].dn == dn then objects[last] else ObjectOf(objects[..last], dn)
  }

  function Dns(objects: seq<LdapObject>): set<Dn> {
    set o <- objects :: o.dn
  }

  /** The single name of a set, or an error in place of Python's `one` raising. */
  ghost function One(dns: set<Dn>, tooMany: Error): Result<Dn, Error> {
    if exists dn :: dns == {dn} then var dn :| dns == {dn}; Ok(dn) else Err(tooMany)
  }

  /** The account the first template with any match picks. */
  ghost function FirstMatch(values: seq<Template>, fields: seq<string>,
                            objects: seq<LdapObject>): Result<Option<Dn>, Error>
  {
    if values == [] then Ok(None)
    else
      var matches := Matches(values[0], fields, objects);
      if matches == {} then FirstMatch(values[1..], fields, objects)
      else match One(matches, Ambiguous)
        case Ok(dn) => Ok(Some(dn))
        case Err(e) => Err(e)
  }

  ghost function Selected(settings: Settings, objects: seq<LdapObject>): Result<Option<Dn>, Error> {
    if objects == [] then Ok(None)
    else if settings.fields == [] then
      match One(Dns(objects), NotOneAccount)
      case Ok(dn) => Ok(Some(dn))
      case Err(e) => Err(e)
    else match MappingError(objects, settings.fields)
      case Some(e) => Err(e)
      case None => FirstMatch(settings.values, settings.fields, objects)
  }

  method TheOnly(dns: set<Dn>, tooMany: Error) returns (result: Result<Dn, Error>)
    ensures result == One(dns, tooMany)
  {
    if dns == {} {
      return Err(tooMany);
    }
    var dn :| dn in dns;
    if dns == {dn} {
      assert forall other :: dns == {other} ==> other in {dn};
      return Ok(dn);
    }
    assert forall other :: dns == {other} ==> dn in {other} && dn == other;
    return Err(tooMany);
  }

  predicate IsObjectOf(objects: seq<LdapObject>, dn: Dn, result: Result<Option<LdapObject>, Error>) {
    dn in Dns(objects) && result == Ok(Some(ObjectOf(objects, dn)))
  }

  method ApplyDiscriminator(settings: Settings, objects: seq<LdapObject>)
    returns (result: Result<Option<LdapObject>, Error>)
    requires ValidSettings(settings) && Coherent(objects)
    ensures var selected := Selected(settings, objects);
            && (selected.Err? ==> result == Err(selected.error))
            && (selected == Ok(None) ==> result == Ok(None))
            && (selected.Ok? && selected.value.Some? ==> IsObjectOf(objects, selected.value.value, result))
    ensures objects == [] ==> result == Ok(None)
    ensures objects != [] && settings.fields == [] ==> IsOnlyAccount(objects, result)
    ensures settings.fields != [] && AllMapped(objects, settings.fields) ==>
      IsBestAccount(settings.values, settings.fields, objects, result)
    ensures objects != [] && settings.fields != [] && !AllMapped(objects, settings.fields) ==>
      result == Err(MissingFields) || result == Err(TooManyValues)
  {
    SelectedMeans(settings, objects);
    hide IsOnlyAccount, IsBestAccount;
    if objects == [] {
      return Ok(None);
    }
    var dns := Dns(objects);
    if settings.fields == [] {
      var only := TheOnly(dns, NotOneAccount);
      match only {
        case Err(e) => return Err(e);
        case Ok(dn) =>
          assert dn in dns;
          return Ok(Some(ObjectOf(objects, dn)));
      }
    }
    hide AllMapped;
    var error := MappingError(objects, settings.fields);
    if error.Some? {
      return Err(error.value);
    }
    for i := 0 to |settings.values|
      invariant FirstMatch(settings.values, settings.fields, objects)
             == FirstMatch(settings.values[i..], settings.fields, objects)
    {
      var matches := Matches(settings.values[i], settings.fields, objects);
      assert settings.values[i..][1..] == settings.values[i + 1..];
      if matches != {} {
        var only := TheOnly(matches, Ambiguous);
        match only {
          case Err(e) => return Err(e);
          case Ok(dn) =>
            assert dn in matches;
            return Ok(Some(ObjectOf(objects, dn)));
        }
      }
    }
    assert settings.values[|settings.values|..] == [];
    return Ok(None);
  }

  /** Without fields the candidates must be one account. */
  ghost predicate IsOnlyAccount(objects: seq<LdapObject>, result: Result<Option<LdapObject>, Error>) {
    && (forall o <- objects :: result == Ok(Some(o)) <==> forall other <- objects :: other.dn == o.dn)
    && (result == Err(NotOneAccount) <==> exists o <- objects, other <- objects :: other.dn != o.dn)
    && (result.Ok? ==> result.value.Some? && result.value.value in objects)
  }

  /** The account that alone matches the first value any account matches; an error exactly if that value
      has several matches, and no account exactly if no value has any. */
  ghost predicate IsBestAccount(values: seq<Template>, fields: seq<string>, objects: seq<LdapObject>,
                                result: Result<Option<LdapObject>, Error>)
  {
    && (forall o <- objects ::
          result == Ok(Some(o)) <==> exists k: nat :: IsOnlyMatch(values, fields, objects, k, o.dn))
    && (result == Err(Ambiguous) <==> exists k: nat :: HasManyMatches(values, fields, objects, k))
    && (result == Ok(None) <==> forall k | 0 <= k < |values| :: Matches(values[k], fields, objects) == {})
    && (result.Ok? && result.value.Some? ==> result.value.value in objects)
  }

  /** The result that stands for a selected name. */
  ghost predicate StandsFor(objects: seq<LdapObject>, selected: Result<Option<Dn>, Error>,
                            result: Result<Option<LdapObject>, Error>)
  {
    && (selected.Err? ==> result == Err(selected.error))
    && (selected == Ok(None) ==> result == Ok(None))
    && (selected.Ok? && selected.value.Some? ==> IsObjectOf(objects, selected.value.value, result))
  }

  lemma SelectedMeans(settings: Settings, objects: seq<LdapObject>)
    requires Coherent(objects)
    ensures forall result | StandsFor(objects, Selected(settings, objects), result) ::
      && (objects == [] ==> result == Ok(None))
      && (objects != [] && settings.fields == [] ==> IsOnlyAccount(objects, result))
      && (settings.fields != [] && AllMapped(objects, settings.fields) ==>
        IsBestAccount(settings.values, settings.fields, objects, result))
      && (objects != [] && settings.fields != [] && !AllMapped(objects, settings.fields) ==>
        result == Err(MissingFields) || result == Err(TooManyValues))
  {
    var selected := Selected(settings, objects);
    forall result | StandsFor(objects, selected, result)
      ensures objects != [] && settings.fields == [] ==> IsOnlyAccount(objects, result)
      ensures settings.fields != [] && AllMapped(objects, settings.fields) ==>
        IsBestAccount(settings.values, settings.fields, objects, result)
    {
      if settings.fields == [] {
        OnlyMeans(settings, objects, result);
      } else if AllMapped(objects, settings.fields) {
        BestMeans(settings, objects, result);
      }
    }
    MappingErrorIs(objects, settings.fields);
    hide AllMapped, FirstMatch, IsOnlyAccount, IsBestAccount;
  }

  lemma OnlyMeans(settings: Settings, objects: seq<LdapObject>, result: Result<Option<LdapObject>, Error>)
    requires Coherent(objects) && settings.fields == [] && StandsFor(objects, Selected(settings, objects), result)
    ensures objects != [] ==> IsOnlyAccount(objects, result)
  {
    if objects != [] {
      forall o <- objects { OnlyNameIff(settings, objects, o.dn); }
      assert objects[0] in objects;
      hide Selected, ObjectOf;
    }
  }

  lemma BestMeans(settings: Settings, objects: seq<LdapObject>, result: Result<Option<LdapObject>, Error>)
    requires Coherent(objects) && settings.fields != [] && AllMapped(objects, settings.fields)
    requires StandsFor(objects, Selected(settings, objects), result)
    ensures IsBestAccount(settings.values, settings.fields, objects, result)
  {
    SelectedIff(settings, objects, "");
    StandingFor(objects, Selected(settings, objects), result);
    hide Selected, StandsFor, IsOnlyMatch, HasManyMatches, Matches, AllMapped, Coherent;
    forall o <- objects
      ensures result == Ok(Some(o)) <==>
        exists k: nat :: IsOnlyMatch(settings.values, settings.fields, objects, k, o.dn)
    {
      SelectedIff(settings, objects, o.dn);
    }
  }

  /** A name stands for one account. */
  lemma StandingFor(objects: seq<LdapObject>, selected: Result<Option<Dn>, Error>,
                    result: Result<Option<LdapObject>, Error>)
    requires Coherent(objects) && StandsFor(objects, selected, result)
    ensures forall o <- objects :: result == Ok(Some(o)) <==> selected == Ok(Some(o.dn))
    ensures result == Ok(None) <==> selected == Ok(None)
    ensures forall e :: result == Err(e) <==> selected == Err(e)
    ensures result.Ok? && result.value.Some? ==> result.value.value in objects
  {
    if selected.Ok? && selected.value.Some? {
      var dn := selected.value.value;
      assert dn in Dns(objects) && result == Ok(Some(ObjectOf(objects, dn)));
      hide ObjectOf, IsObjectOf;
      assert forall o <- objects :: o.dn == dn ==> o == ObjectOf(objects, dn);
    }
  }

  /** What either direction does with its candidates: filter them, then choose. */
  ghost function Choose(settings: Settings, objects: seq<LdapObject>): Result<Option<Dn>, Error> {
    match FilterDns(settings, objects)
    case Err(e) => Err(e)
    case Ok(passing) => Selected(settings, passing)
  }

  // ---------------------------------------------------------------------------------------------
  // Which account is chosen
  // ---------------------------------------------------------------------------------------------

  /** Whether template `k` is the first that any candidate matches. */
  ghost predicate IsFirst(values: seq<Template>, fields: seq<string>, objects: seq<LdapObject>, k: nat) {
    && k < |values|
    && Matches(values[k], fields, objects) != {}
    && forall j | 0 <= j < k :: Matches(values[j], fields, objects) == {}
  }

  lemma {:induction false} FirstMatchOfFirst(values: seq<Template>, fields: seq<string>, objects: seq<LdapObject>,
                                             k: nat)
    requires IsFirst(values, fields, objects, k)
    ensures forall dn :: FirstMatch(values, fields, objects) == Ok(Some(dn)) <==>
      Matches(values[k], fields, objects) == {dn}
    ensures (forall dn :: Matches(values[k], fields, objects) != {dn}) <==>
      FirstMatch(values, fields, objects) == Err(Ambiguous)
    ensures FirstMatch(values, fields, objects) != Ok(None)
  {
    if k > 0 {
      var rest := values[1..];
      assert rest[k - 1] == values[k];
      assert forall j | 0 <= j < k - 1 :: rest[j] == values[j + 1];
      FirstMatchOfFirst(rest, fields, objects, k - 1);
    } else {
      var matches := Matches(values[0], fields, objects);
      if dn :| matches == {dn} {
        assert forall other :: matches == {other} ==> other in {dn};
      }
    }
  }

  lemma {:induction false} FirstMatchOfNone(values: seq<Template>, fields: seq<string>, objects: seq<LdapObject>)
    requires forall j | 0 <= j < |values| :: Matches(values[j], fields, objects) == {}
    ensures FirstMatch(values, fields, objects) == Ok(None)
  {
    if values != [] {
      FirstMatchOfNone(values[1..], fields, objects);
    }
  }

  lemma {:induction false} FirstOrNone(values: seq<Template>, fields: seq<string>, objects: seq<LdapObject>, j: nat)
    requires j < |values| && Matches(values[j], fields, objects) != {}
    ensures exists k :: IsFirst(values, fields, objects, k)
    decreases j
  {
    if i :| 0 <= i < j && Matches(values[i], fields, objects) != {} {
      FirstOrNone(values, fields, objects, i);
    } else {
      assert IsFirst(values, fields, objects, j);
    }
  }

  ghost predicate IsOnlyMatch(values: seq<Template>, fields: seq<string>, objects: seq<LdapObject>, k: nat, dn: Dn) {
    IsFirst(values, fields, objects, k) && Matches(values[k], fields, objects) == {dn}
  }

  ghost predicate HasManyMatches(values: seq<Template>, fields: seq<string>, objects: seq<LdapObject>, k: nat) {
    IsFirst(values, fields, objects, k) && forall dn :: Matches(values[k], fields, objects) != {dn}
  }

  /** The choice is the account that alone matches the first template with any match, it is ambiguous
      exactly when several match that template, and there is none exactly when no template matches. */
  lemma FirstMatchIff(values: seq<Template>, fields: seq<string>, objects: seq<LdapObject>, dn: Dn)
    ensures FirstMatch(values, fields, objects) == Ok(Some(dn))
       <==> exists k: nat :: IsOnlyMatch(values, fields, objects, k, dn)
    ensures FirstMatch(values, fields, objects) == Err(Ambiguous)
       <==> exists k: nat :: HasManyMatches(values, fields, objects, k)
    ensures FirstMatch(values, fields, objects) == Ok(None)
       <==> forall k | 0 <= k < |values| :: Matches(values[k], fields, objects) == {}
  {
    hide Matches, FirstMatch;
    if j: nat :| j < |values| && Matches(values[j], fields, objects) != {} {
      FirstOrNone(values, fields, objects, j);
      var k: nat :| IsFirst(values, fields, objects, k);
      FirstMatchOfFirst(values, fields, objects, k);
      assert IsOnlyMatch(values, fields, objects, k, dn) <==> Matches(values[k], fields, objects) == {dn};
      assert HasManyMatches(values, fields, objects, k) <==>
        forall other :: Matches(values[k], fields, objects) != {other};
      assert forall i: nat :: IsFirst(values, fields, objects, i) ==> i == k;
    } else {
      FirstMatchOfNone(values, fields, objects);
    }
  }

  // ---------------------------------------------------------------------------------------------
  // What a template gets to see
  // ---------------------------------------------------------------------------------------------

  /** A field that holds at most one value, and that value. */
  ghost predicate Shows(field: Field, scalar: Scalar) {
    || (field.Text? && scalar == TextValue(field.text))
    || (field.Number? && scalar == NumberValue(field.number))
    || (field == Many([]) && scalar == NoValue)
    || (field.Many? && |field.texts| == 1 && scalar == TextValue(field.texts[0]))
  }

  /** The template says yes to the name of the account and the values of its fields. */
  ghost predicate Accepts(template: Template, fields: seq<string>, o: LdapObject) {
    exists m: Mapping :: template(o.dn, m) && SeesAs(fields, o, m)
  }

  ghost predicate SeesAs(fields: seq<string>, o: LdapObject, m: Mapping) {
    (forall f :: f in m <==> f in fields) && forall f <- m :: f in o.fields && Shows(o.fields[f], m[f])
  }

  ghost predicate HasField(o: LdapObject, f: string) {
    f in o.fields
  }

  ghost predicate HoldsSeveral(o: LdapObject, f: string) {
    f in o.fields && o.fields[f].Many? && |o.fields[f].texts| > 1
  }

  /** Every candidate has all fields, with at most one value in each. */
  ghost predicate AllMapped(objects: seq<LdapObject>, fields: seq<string>) {
    forall o <- objects, f <- fields :: HasField(o, f) && !HoldsSeveral(o, f)
  }

  /** An absent field is an error, whatever the others hold; then a field with several values is. */
  lemma MappingErrorIs(objects: seq<LdapObject>, fields: seq<string>)
    ensures MappingError(objects, fields) == None <==> AllMapped(objects, fields)
    ensures MappingError(objects, fields) == Some(MissingFields) <==>
      exists o <- objects, f <- fields :: !HasField(o, f)
    ensures MappingError(objects, fields) == Some(TooManyValues) <==>
      && (forall o <- objects, f <- fields :: HasField(o, f))
      && exists o <- objects, f <- fields :: HoldsSeveral(o, f)
  {
    assert forall o, f :: HoldsSeveral(o, f) <==> ObjectToDiscriminator(o, f).Err?;
    assert forall o, f :: HasField(o, f) <==> f in o.fields;
    hide ObjectToDiscriminator, HoldsSeveral, HasField;
  }

  lemma PassesIff(template: Template, fields: seq<string>, o: LdapObject)
    requires forall f <- fields :: HasField(o, f) && !HoldsSeveral(o, f)
    ensures Passes(template, fields, o) <==> Accepts(template, fields, o)
  {
    var seen := MappingOf(o, fields);
    forall f <- fields ensures f in seen && Shows(o.fields[f], seen[f]) {
      assert HasField(o, f) && !HoldsSeveral(o, f);
    }
    forall m: Mapping | SeesAs(fields, o, m) ensures m == seen {
      assert m.Keys == seen.Keys;
    }
  }

  /** The names of the candidates the template says yes to. */
  lemma MatchesIff(template: Template, fields: seq<string>, objects: seq<LdapObject>, dn: Dn)
    requires AllMapped(objects, fields)
    ensures dn in Matches(template, fields, objects) <==>
      exists o <- objects :: o.dn == dn && Accepts(template, fields, o)
  {
    hide Passes, Accepts, HasField, HoldsSeveral;
    forall o <- objects { PassesIff(template, fields, o); }
  }

  /** The candidates the filter leaves: those it says yes to, or all if there is none. */
  ghost predicate AreLeft(settings: Settings, objects: seq<LdapObject>, left: seq<LdapObject>) {
    forall o :: o in left <==>
      o in objects && (settings.filter.None? || Accepts(settings.filter.value, settings.fields, o))
  }

  lemma FilterIs(settings: Settings, objects: seq<LdapObject>)
    ensures settings.filter.Some? && !AllMapped(objects, settings.fields) ==> FilterDns(settings, objects).Err?
    ensures settings.filter.None? || AllMapped(objects, settings.fields) ==>
      FilterDns(settings, objects).Ok? && AreLeft(settings, objects, FilterDns(settings, objects).value)
  {
    MappingErrorIs(objects, settings.fields);
    hide Passing, Passes, Accepts, MappingError, HasField, HoldsSeveral;
    if settings.filter.Some? && AllMapped(objects, settings.fields) {
      forall o <- objects { PassesIff(settings.filter.value, settings.fields, o); }
    }
  }

  /** The choice among candidates with all fields, in the words of the settings: the account that alone
      matches the first value with any match, an error if several match that value, and none if none does. */
  lemma SelectedIff(settings: Settings, objects: seq<LdapObject>, dn: Dn)
    requires settings.fields != [] && AllMapped(objects, settings.fields)
    ensures var values, fields := settings.values, settings.fields;
      && (Selected(settings, objects) == Ok(Some(dn)) <==> exists k: nat :: IsOnlyMatch(values, fields, objects, k, dn))
      && (Selected(settings, objects) == Err(Ambiguous) <==>
        exists k: nat :: HasManyMatches(values, fields, objects, k))
      && (Selected(settings, objects) == Ok(None) <==>
        forall k | 0 <= k < |values| :: Matches(values[k], fields, objects) == {})
  {
    MappingErrorIs(objects, settings.fields);
    FirstMatchIff(settings.values, settings.fields, objects, dn);
    if objects == [] {
      assert forall k | 0 <= k < |settings.values| :: Matches(settings.values[k], settings.fields, []) == {};
    }
    hide Matches, FirstMatch, AllMapped;
  }

  /** Without fields there can be only one name. */
  lemma OnlyNameIff(settings: Settings, objects: seq<LdapObject>, dn: Dn)
    requires settings.fields == [] && objects != []
    ensures Selected(settings, objects) == Ok(Some(dn)) <==> forall o <- objects :: o.dn == dn
    ensures (forall name :: Selected(settings, objects) != Ok(Some(name))) <==>
      Selected(settings, objects) == Err(NotOneAccount)
    ensures Selected(settings, objects) != Ok(None)
  {
    assert objects[0] in objects && objects[0].dn in Dns(objects);
    if forall o <- objects :: o.dn == dn {
      assert Dns(objects) == {dn};
      assert forall other :: Dns(objects) == {other} ==> dn in {other};
    }
    if Selected(settings, objects) == Ok(Some(dn)) {
      var only :| Dns(objects) == {only} && only == dn;
      assert forall o <- objects :: o.dn in Dns(objects);
    }
  }

  /** So it is for what the filter leaves, in whatever order that is listed. */
  lemma ChoiceIff(settings: Settings, objects: seq<LdapObject>, left: seq<LdapObject>, dn: Dn)
    requires settings.fields != [] && AllMapped(objects, settings.fields) && AreLeft(settings, objects, left)
    ensures var values, fields := settings.values, settings.fields;
      && (Choose(settings, objects) == Ok(Some(dn)) <==> exists k: nat :: IsOnlyMatch(values, fields, left, k, dn))
      && (Choose(settings, objects) == Err(Ambiguous) <==> exists k: nat :: HasManyMatches(values, fields, left, k))
      && (Choose(settings, objects) == Ok(None) <==>
        forall k | 0 <= k < |values| :: Matches(values[k], fields, left) == {})
  {
    FilterIs(settings, objects);
    hide FilterDns, Selected, Matches, Accepts, IsOnlyMatch, HasManyMatches;
    assert AllMapped(left, settings.fields);
    SelectedIgnoresOrder(settings, FilterDns(settings, objects).value, left);
    SelectedIff(settings, left, dn);
  }

  /** And if a candidate lacks a field or holds several values in one, none is selected unless there are none. */
  lemma UnmappedSelectNothing(settings: Settings, objects: seq<LdapObject>)
    requires settings.fields != [] && !AllMapped(objects, settings.fields)
    ensures Choose(settings, objects) == Err(MissingFields) || Choose(settings, objects) == Err(TooManyValues)
  {
    MappingErrorIs(objects, settings.fields);
    hide AllMapped, FirstMatch;
  }

  // ---------------------------------------------------------------------------------------------
  // The order of the candidates
  // ---------------------------------------------------------------------------------------------

  ghost predicate SameCandidates(objects: seq<LdapObject>, others: seq<LdapObject>) {
    forall o :: o in objects <==> o in others
  }

  lemma {:induction false} FirstMatchIgnoresOrder(values: seq<Template>, fields: seq<string>,
                                                  objects: seq<LdapObject>, others: seq<LdapObject>)
    requires SameCandidates(objects, others)
    ensures FirstMatch(values, fields, objects) == FirstMatch(values, fields, others)
  {
    if values != [] {
      assert Matches(values[0], fields, objects) == Matches(values[0], fields, others);
      FirstMatchIgnoresOrder(values[1..], fields, objects, others);
    }
  }

  lemma SelectedIgnoresOrder(settings: Settings, objects: seq<LdapObject>, others: seq<LdapObject>)
    requires SameCandidates(objects, others)
    ensures Selected(settings, objects) == Selected(settings, others)
  {
    assert objects == [] || objects[0] in others;
    assert others == [] || others[0] in objects;
    assert Dns(objects) == Dns(others);
    FirstMatchIgnoresOrder(settings.values, settings.fields, objects, others);
  }

  /** Account, none, ambiguous or failing: the outcome does not depend on the order in which the
      candidates were found, nor on how often each was. */
  lemma ChoiceIgnoresOrder(settings: Settings, objects: seq<LdapObject>, others: seq<LdapObject>)
    requires SameCandidates(objects, others)
    ensures Choose(settings, objects) == Choose(settings, others)
  {
    hide Selected;
    SelectedIgnoresOrder(settings, objects, others);
    var passing, otherPassing := FilterDns(settings, objects), FilterDns(settings, others);
    if passing.Ok? && otherPassing.Ok? {
      SelectedIgnoresOrder(settings, passing.value, otherPassing.value);
    }
  }

  // ---------------------------------------------------------------------------------------------
  // Both directions
  // ---------------------------------------------------------------------------------------------

  /** The accounts of the directory at one moment, with every attribute. */
  type Snapshot = map<Dn, map<string, Field>>

  /** What a search for some attributes returns of an account: an absent attribute comes back without values. */
  function Loaded(account: LdapObject, attributes: set<string>): LdapObject {
    LdapObject(account.dn, map a <- attributes :: if a in account.fields then account.fields[a] else Many([]))
  }

  /** A template sees the account's own value of an attribute that was asked for, or that there is none. */
  lemma LoadedShows(o: LdapObject, attributes: set<string>, f: string, scalar: Scalar)
    requires f in attributes
    ensures Loaded(o, attributes).dn == o.dn && HasField(Loaded(o, attributes), f)
    ensures Shows(Loaded(o, attributes).fields[f], scalar) <==>
      if f in o.fields then Shows(o.fields[f], scalar) else scalar == NoValue
  {
  }

  function Load(snapshot: Snapshot, dn: Dn, attributes: set<string>): LdapObject
    requires dn in snapshot
  {
    Loaded(LdapObject(dn, snapshot[dn]), attributes)
  }

  function LoadAll(snapshot: Snapshot, dns: seq<Dn>, attributes: set<string>): seq<LdapObject>
    requires forall d <- dns :: d in snapshot
  {
    seq(|dns|, i requires 0 <= i < |dns| => Load(snapshot, dns[i], attributes))
  }

  /** Two loads of one account that look the same to every template. */
  predicate Alike(a: LdapObject, b: LdapObject, fields: seq<string>) {
    && a.dn == b.dn
    && forall f <- fields ::
      f in a.fields && f in b.fields && ObjectToDiscriminator(a, f) == ObjectToDiscriminator(b, f)
  }

  predicate AllAlike(objects: seq<LdapObject>, others: seq<LdapObject>, fields: seq<string>) {
    |objects| == |others| && forall i | 0 <= i < |objects| :: Alike(objects[i], others[i], fields)
  }

  lemma AlikePass(a: LdapObject, b: LdapObject, fields: seq<string>, template: Template)
    requires Alike(a, b, fields)
    ensures Passes(template, fields, a) == Passes(template, fields, b)
  {
    assert MappingOf(a, fields) == MappingOf(b, fields);
  }

  lemma AlikeErrors(objects: seq<LdapObject>, others: seq<LdapObject>, fields: seq<string>)
    requires AllAlike(objects, others, fields)
    ensures MappingError(objects, fields) == MappingError(others, fields)
  {
    forall o <- objects, f <- fields
      ensures f in o.fields
      ensures ObjectToDiscriminator(o, f).Err? ==> exists p <- others :: ObjectToDiscriminator(p, f).Err?
    {
      var i :| 0 <= i < |objects| && objects[i] == o;
      assert Alike(o, others[i], fields) && others[i] in others;
    }
    forall o <- others, f <- fields
      ensures f in o.fields
      ensures ObjectToDiscriminator(o, f).Err? ==> exists p <- objects :: ObjectToDiscriminator(p, f).Err?
    {
      var i :| 0 <= i < |others| && others[i] == o;
      assert Alike(objects[i], o, fields) && objects[i] in objects;
    }
  }

  lemma {:induction false} AlikePassing(template: Template, fields: seq<string>, objects: seq<LdapObject>,
                                        others: seq<LdapObject>)
    requires AllAlike(objects, others, fields)
    ensures AllAlike(Passing(template, fields, objects), Passing(template, fields, others), fields)
  {
    if objects != [] {
      AlikePass(objects[0], others[0], fields, template);
      hide Passes, Alike;
      assert AllAlike(objects[1..], others[1..], fields);
      AlikePassing(template, fields, objects[1..], others[1..]);
    }
  }

  lemma AlikeMatches(template: Template, fields: seq<string>, objects: seq<LdapObject>, others: seq<LdapObject>)
    requires AllAlike(objects, others, fields)
    ensures Matches(template, fields, objects) == Matches(template, fields, others)
  {
    forall dn
      ensures dn in Matches(template, fields, objects) ==> dn in Matches(template, fields, others)
    {
      if dn in Matches(template, fields, objects) {
        var i :| 0 <= i < |objects| && objects[i].dn == dn && Passes(template, fields, objects[i]);
        AlikePass(objects[i], others[i], fields, template);
        assert others[i] in others;
      }
    }
    forall dn
      ensures dn in Matches(template, fields, others) ==> dn in Matches(template, fields, objects)
    {
      if dn in Matches(template, fields, others) {
        var i :| 0 <= i < |others| && others[i].dn == dn && Passes(template, fields, others[i]);
        AlikePass(objects[i], others[i], fields, template);
        assert objects[i] in objects;
      }
    }
  }

  lemma {:induction false} AlikeFirstMatch(values: seq<Template>, fields: seq<string>, objects: seq<LdapObject>,
                                           others: seq<LdapObject>)
    requires AllAlike(objects, others, fields)
    ensures FirstMatch(values, fields, objects) == FirstMatch(values, fields, others)
  {
    if values != [] {
      hide Alike, Matches;
      AlikeMatches(values[0], fields, objects, others);
      AlikeFirstMatch(values[1..], fields, objects, others);
    }
  }

  lemma AlikeSelected(settings: Settings, objects: seq<LdapObject>, others: seq<LdapObject>)
    requires AllAlike(objects, others, settings.fields)
    ensures Selected(settings, objects) == Selected(settings, others)
  {
    AlikeErrors(objects, others, settings.fields);
    AlikeFirstMatch(settings.values, settings.fields, objects, others);
    hide MappingError, FirstMatch;
    forall dn
      ensures dn in Dns(objects) <==> dn in Dns(others)
    {
      if dn in Dns(objects) {
        var i :| 0 <= i < |objects| && objects[i].dn == dn;
        assert others[i] in others && Alike(objects[i], others[i], settings.fields);
      }
      if dn in Dns(others) {
        var i :| 0 <= i < |others| && others[i].dn == dn;
        assert objects[i] in objects && Alike(objects[i], others[i], settings.fields);
      }
    }
    assert Dns(objects) == Dns(others);
  }

  lemma AlikeChoice(settings: Settings, objects: seq<LdapObject>, others: seq<LdapObject>)
    requires AllAlike(objects, others, settings.fields)
    ensures Choose(settings, objects) == Choose(settings, others)
  {
    AlikeErrors(objects, others, settings.fields);
    AlikeSelected(settings, objects, others);
    if settings.filter.Some? {
      AlikePassing(settings.filter.value, settings.fields, objects, others);
      AlikeSelected(settings, Passing(settings.filter.value, settings.fields, objects),
                    Passing(settings.filter.value, settings.fields, others));
    }
    hide Selected, MappingError, AllAlike;
  }

  /** What the export direction loads of its candidates. */
  function Exporting(settings: Settings, snapshot: Snapshot, dns: seq<Dn>): seq<LdapObject>
    requires forall d <- dns :: d in snapshot
  {
    LoadAll(snapshot, dns, set f <- settings.fields)
  }

  lemma LoadsAreAlike(settings: Settings, snapshot: Snapshot, dns: seq<Dn>, attributes: set<string>)
    requires (forall d <- dns :: d in snapshot) && forall f <- settings.fields :: f in attributes
    ensures AllAlike(LoadAll(snapshot, dns, attributes), Exporting(settings, snapshot, dns), settings.fields)
  {
  }

  lemma SameNamesSameCandidates(snapshot: Snapshot, dns: seq<Dn>, others: seq<Dn>, attributes: set<string>)
    requires (forall d <- dns :: d in snapshot) && forall d :: d in dns <==> d in others
    ensures SameCandidates(LoadAll(snapshot, dns, attributes), LoadAll(snapshot, others, attributes))
  {
    var a, b := LoadAll(snapshot, dns, attributes), LoadAll(snapshot, others, attributes);
    forall i | 0 <= i < |a|
      ensures a[i] in b
    {
      assert dns[i] in others;
      var j :| 0 <= j < |others| && others[j] == dns[i];
      assert b[j] == a[i];
    }
    forall j | 0 <= j < |b|
      ensures b[j] in a
    {
      assert others[j] in dns;
      var i :| 0 <= i < |dns| && dns[i] == others[j];
      assert a[i] == b[j];
    }
  }

  /** On one snapshot, for one employee's candidates found in any order, import and export come to the
      same outcome if the import loads the discriminator fields; if it does not, it selects nothing.
      So whenever both select an account, it is the same one. */
  lemma BothDirectionsAgree(settings: Settings, snapshot: Snapshot, importing: seq<Dn>, exporting: seq<Dn>,
                            attributes: set<string>)
    requires (forall d <- importing :: d in snapshot) && forall d :: d in importing <==> d in exporting
    ensures var imported := Choose(settings, LoadAll(snapshot, importing, attributes));
            var exported := Choose(settings, Exporting(settings, snapshot, exporting));
            && ((forall f <- settings.fields :: f in attributes) ==> imported == exported)
            && (imported.Ok? && imported.value.Some? && exported.Ok? && exported.value.Some? ==> imported == exported)
  {
    var loaded := LoadAll(snapshot, importing, attributes);
    if forall f <- settings.fields :: f in attributes {
      LoadsAreAlike(settings, snapshot, importing, attributes);
      AlikeChoice(settings, loaded, Exporting(settings, snapshot, importing));
      SameNamesSameCandidates(snapshot, importing, exporting, set f <- settings.fields);
      ChoiceIgnoresOrder(settings, Exporting(settings, snapshot, importing), Exporting(settings, snapshot, exporting));
    } else {
      MissingFieldsSelectNothing(settings, snapshot, importing, attributes);
    }
  }

  lemma MissingFieldsSelectNothing(settings: Settings, snapshot: Snapshot, dns: seq<Dn>, attributes: set<string>)
    requires forall d <- dns :: d in snapshot
    requires exists f <- settings.fields :: f !in attributes
    ensures var outcome := Choose(settings, LoadAll(snapshot, dns, attributes));
            outcome.Err? || outcome == Ok(None)
  {
    var loaded := LoadAll(snapshot, dns, attributes);
    if dns != [] {
      var f :| f in settings.fields && f !in attributes;
      assert f !in loaded[0].fields && loaded[0] in loaded;
      assert MappingError(loaded, settings.fields) == Some(MissingFields);
    }
  }
}
