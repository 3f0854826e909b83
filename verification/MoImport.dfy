/** The import of one LDAP object as one MO object (mo_ldap_import_export/import_export.py:574-862;
    mo_ldap_import_export/config.py:107-160; mo_ldap_import_export/models.py:27-130;
    mo_ldap_import_export/moapi.py:642-680, 784-836). */
module MoImport {
  import opened Wrappers
  import Validities

  type Uuid = nat
  /** A date in MO, counted in days; the clock counts microseconds. */
  type Day = int
  const DAY: int := 86_400_000_000

  /** The default of an extension attribute, and the value that asks for no change. */
  const UNSET: Value := Text("LDAP-PLEASE-MAKE-NO-CHANGES (unset sentinel)")

  datatype Value = Null | Text(text: string) | Texts(texts: seq<string>)

  /** From midnight of the first day to midnight of the last, or without end. */
  datatype Validity = Validity(start: Day, end: Option<Day>)

  datatype MoObject = MoObject(uuid: Uuid, attributes: map<string, Value>, validity: Option<Validity>)

  /** The attributes of a class of objects besides `uuid` and `validity`, with defaults where there are
      any; extensions are those whose default is UNSET. */
  datatype MoClass = MoClass(required: set<string>, optional: map<string, Value>, extensions: set<string>,
                             dated: bool, accepts: (string, Value) -> bool)

  ghost predicate ValidClass(cls: MoClass) {
    && cls.required !! cls.optional.Keys && cls.extensions <= cls.optional.Keys
    && (forall a <- cls.optional :: cls.optional[a] == UNSET <==> a in cls.extensions)
    && forall a :: a in cls.required || a in cls.optional ==> a !in {"uuid", "validity", "objectClass"}
  }

  /** What rendering a template comes to. */
  datatype Rendering<+T> = Given(value: T) | Skip | Requeue | Failure(message: string)

  datatype Field = Field(name: string, rendering: Rendering<Value>)

  /** A mapping together with what its templates render to. The field `uuid`, which every mapping has, is
      kept apart from the other fields, whose order is random. */
  datatype Entity = Entity(
    cls: MoClass,
    uuid: Rendering<Option<Uuid>>,
    termination: Rendering<Option<Day>>,
    doActuallyTerminate: bool,
    fields: seq<Field>)

  /** Fields come from a dictionary. */
  predicate DistinctNames(fields: seq<Field>) {
    forall i, j :: 0 <= i < j < |fields| ==> fields[i].name != fields[j].name
  }

  datatype ImportError =
    | Requeued
    | Failed(message: string)
    | ValidityMapped
    | MissingAttributes
    | EmptyFields
    | Invalid
    | CannotTerminate

  datatype Conversion = Converted(converted: MoObject) | Skipped | SingleDay | Rejected(error: ImportError)

  datatype Upload = Create(created: MoObject) | Edit(edited: MoObject) | Terminate(uuid: Uuid, at: Day)

  datatype Plan = Plan(uploads: seq<Upload>, error: Option<ImportError>)

  function Today(now: int): Day {
    now / DAY
  }

  predicate Falsy(v: Value) {
    v == Null || v == Text("") || v == Texts([])
  }

  // ---------------------------------------------------------------------------------------------
  // _create_converted_object
  // ---------------------------------------------------------------------------------------------

  function Names(fields: seq<Field>): set<string> {
    set f <- fields :: f.name
  }

  function FirstFailure(fields: seq<Field>): Option<string> {
    if fields == [] then None
    else match fields[0].rendering
      case Failure(message) => Some(message)
      case _ => FirstFailure(fields[1..])
  }

  /** The values that are not empty; of two with one name the later stays. */
  function TruthyValues(fields: seq<Field>): map<string, Value> {
    if fields == [] then map[]
    else
      var last := fields[|fields| - 1];
      var rest := TruthyValues(fields[..|fields| - 1]);
      if last.rendering.Given? && !Falsy(last.rendering.value) then rest[last.name := last.rendering.value] else rest
  }

  predicate Acceptable(cls: MoClass, values: map<string, Value>) {
    forall a <- values :: (a in cls.required || a in cls.optional) && cls.accepts(a, values[a])
  }

  function CreateConvertedObject(e: Entity, uuid: Uuid, today: Day, termination: Option<Day>): Conversion {
    if exists f <- e.fields :: f.rendering.Skip? then Skipped
    else if exists f <- e.fields :: f.rendering.Requeue? then Rejected(Requeued)
    else if FirstFailure(e.fields).Some? then Rejected(Failed(FirstFailure(e.fields).value))
    else if e.cls.dated && "validity" in Names(e.fields) then Rejected(ValidityMapped)
    else if e.cls.dated && termination.Some? && termination.value - today <= 1 then SingleDay
    else if !(e.cls.required <= Names(e.fields)) then Rejected(MissingAttributes)
    else
      var values := TruthyValues(e.fields);
      if !(e.cls.required <= values.Keys) then Rejected(EmptyFields)
      else if !Acceptable(e.cls, values) then Rejected(Invalid)
      else
        var validity := if e.cls.dated then Some(Validity(today, termination)) else None;
        Converted(MoObject(uuid, e.cls.optional + values, validity))
  }

  /** What does not depend on which of several failures is met first. */
  function ClassOf(c: Conversion): Conversion {
    if c.Rejected? && c.error.Failed? then Rejected(Failed("")) else c
  }

  ghost predicate Permutes(fields: seq<Field>, others: seq<Field>) {
    multiset(fields) == multiset(others)
  }

  lemma PermutedElements(fields: seq<Field>, others: seq<Field>)
    requires Permutes(fields, others)
    ensures forall f :: f in fields <==> f in others
  {
    forall f ensures f in fields <==> f in others {
      assert f in multiset(fields) <==> f in multiset(others);
    }
  }

  lemma {:induction false} FirstFailureIff(fields: seq<Field>)
    ensures FirstFailure(fields).Some? <==> exists f <- fields :: f.rendering.Failure?
  {
    if fields != [] {
      FirstFailureIff(fields[1..]);
      assert forall f :: f in fields <==> f == fields[0] || f in fields[1..];
    }
  }

  lemma {:induction false} TruthyValuesIs(fields: seq<Field>, a: string)
    requires DistinctNames(fields)
    ensures a in TruthyValues(fields) <==>
      exists f <- fields :: f.name == a && HasValue(f)
    ensures forall f <- fields :: f.name == a && a in TruthyValues(fields) ==>
      f.rendering == Given(TruthyValues(fields)[a])
    decreases |fields|
  {
    if fields != [] {
      var k := |fields| - 1;
      TruthyValuesIs(fields[..k], a);
      assert forall f :: f in fields <==> f in fields[..k] || f == fields[k];
      assert forall f <- fields[..k] :: f.name != fields[k].name;
    }
  }

  lemma TruthyValuesPermute(fields: seq<Field>, others: seq<Field>)
    requires DistinctNames(fields) && DistinctNames(others) && Permutes(fields, others)
    ensures TruthyValues(fields) == TruthyValues(others)
  {
    hide TruthyValues;
    PermutedElements(fields, others);
    forall a ensures a in TruthyValues(fields) <==> a in TruthyValues(others)
      ensures a in TruthyValues(fields) && a in TruthyValues(others) ==>
        TruthyValues(fields)[a] == TruthyValues(others)[a]
    {
      TruthyValuesIs(fields, a);
      TruthyValuesIs(others, a);
    }
    assert TruthyValues(fields).Keys == TruthyValues(others).Keys;
  }

  /** A field that rendered to a value that is not empty. */
  predicate HasValue(f: Field) {
    f.rendering.Given? && f.rendering.value !in {Null, Text(""), Texts([])}
  }

  /** A conversion succeeds exactly if every field renders, validity is not mapped and not too short,
      every required attribute gets a value, and the class knows and accepts all values. */
  lemma ConvertsIff(e: Entity, uuid: Uuid, today: Day, termination: Option<Day>)
    requires DistinctNames(e.fields)
    ensures CreateConvertedObject(e, uuid, today, termination).Converted? <==>
      && (forall f <- e.fields :: f.rendering.Given?)
      && (e.cls.dated ==>
        (forall f <- e.fields :: f.name != "validity") && (termination.None? || termination.value >= today + 2))
      && (forall a <- e.cls.required :: exists f <- e.fields :: f.name == a && HasValue(f))
      && (forall f <- e.fields :: HasValue(f) ==>
            (f.name in e.cls.required || f.name in e.cls.optional) && e.cls.accepts(f.name, f.rendering.value))
  {
    hide FirstFailure, TruthyValues, Acceptable;
    FirstFailureIff(e.fields);
    ValuesConvertIff(e);
    assert e.cls.required <= TruthyValues(e.fields).Keys ==> e.cls.required <= Names(e.fields) by {
      forall a <- TruthyValues(e.fields) ensures a in Names(e.fields) {
        TruthyValuesIs(e.fields, a);
      }
    }
  }

  lemma ValuesConvertIff(e: Entity)
    requires DistinctNames(e.fields)
    ensures e.cls.required <= TruthyValues(e.fields).Keys <==>
      forall a <- e.cls.required :: exists f <- e.fields :: f.name == a && HasValue(f)
    ensures Acceptable(e.cls, TruthyValues(e.fields)) <==> forall f <- e.fields :: HasValue(f) ==>
            (f.name in e.cls.required || f.name in e.cls.optional) && e.cls.accepts(f.name, f.rendering.value)
  {
    hide TruthyValues, HasValue;
    forall a { TruthyValuesIs(e.fields, a); }
    assert forall f <- e.fields :: HasValue(f) ==> f.name in TruthyValues(e.fields);
  }

  /** Everything renders, and a validity can be made of today and the last day. */
  ghost predicate RendersForDays(e: Entity, today: Day, last: Option<Day>) {
    && (forall f <- e.fields :: f.rendering.Given?)
    && (e.cls.dated ==> (forall f <- e.fields :: f.name != "validity") && (last.Some? ==> today + 2 <= last.value))
  }

  ghost predicate IsMapped(e: Entity, a: string) {
    exists f <- e.fields :: f.name == a
  }

  ghost predicate GetsValue(e: Entity, a: string) {
    exists f <- e.fields :: f.name == a && HasValue(f)
  }

  /** Why a conversion does not succeed. A skip comes before a requeue and that before an error, whatever the
      order of the fields; next is what is wrong with the validity, and last what is wrong with the values. */
  lemma ConversionFailsIff(e: Entity, uuid: Uuid, today: Day, last: Option<Day>)
    requires DistinctNames(e.fields)
    ensures var c := CreateConvertedObject(e, uuid, today, last);
      var skips := exists f <- e.fields :: f.rendering.Skip?;
      var requeues := exists f <- e.fields :: f.rendering.Requeue?;
      && (c == Skipped <==> skips)
      && (c == Rejected(Requeued) <==> requeues && !skips)
      && (c.Rejected? && c.error.Failed? <==> !skips && !requeues && exists f <- e.fields :: f.rendering.Failure?)
      && (c.Rejected? && c.error.Failed? ==> exists f <- e.fields :: f.rendering == Failure(c.error.message))
  {
    hide TruthyValues, Acceptable, Names;
    FirstFailureIff(e.fields);
    FirstFailureIs(e.fields);
  }

  lemma {:induction false} FirstFailureIs(fields: seq<Field>)
    ensures FirstFailure(fields).Some? ==>
      exists f <- fields :: f.rendering == Failure(FirstFailure(fields).value)
  {
    if fields != [] && !fields[0].rendering.Failure? {
      FirstFailureIs(fields[1..]);
    } else if fields != [] {
      assert fields[0] in fields;
    }
  }

  lemma ValidityFailsIff(e: Entity, uuid: Uuid, today: Day, last: Option<Day>)
    requires DistinctNames(e.fields)
    ensures var c := CreateConvertedObject(e, uuid, today, last);
      && (c == Rejected(ValidityMapped) <==>
        (forall f <- e.fields :: f.rendering.Given?) && e.cls.dated && IsMapped(e, "validity"))
      && (c == SingleDay <==>
        && (forall f <- e.fields :: f.rendering.Given?) && e.cls.dated && !IsMapped(e, "validity")
        && last.Some? && last.value < today + 2)
      && c != Rejected(CannotTerminate)
  {
    hide TruthyValues, Acceptable;
    FirstFailureIff(e.fields);
    hide FirstFailure;
    assert "validity" in Names(e.fields) <==> IsMapped(e, "validity");
  }

  lemma ValuesFailIff(e: Entity, uuid: Uuid, today: Day, last: Option<Day>)
    requires DistinctNames(e.fields)
    ensures var c := CreateConvertedObject(e, uuid, today, last);
      && (c == Rejected(MissingAttributes) <==>
        RendersForDays(e, today, last) && exists a <- e.cls.required :: !IsMapped(e, a))
      && (c == Rejected(EmptyFields) <==>
        && RendersForDays(e, today, last) && (forall a <- e.cls.required :: IsMapped(e, a))
        && exists a <- e.cls.required :: !GetsValue(e, a))
      && (c == Rejected(Invalid) ==>
        RendersForDays(e, today, last) && forall a <- e.cls.required :: IsMapped(e, a) && GetsValue(e, a))
  {
    FirstFailureIff(e.fields);
    forall a ensures a in Names(e.fields) <==> IsMapped(e, a) {}
    forall a ensures a in TruthyValues(e.fields) <==> GetsValue(e, a) { TruthyValuesIs(e.fields, a); }
    assert RendersForDays(e, today, last) ==> !IsMapped(e, "validity") || !e.cls.dated;
    hide FirstFailure, TruthyValues, Acceptable, Names, GetsValue;
  }

  /** The converted object has the values the fields rendered to, and defaults elsewhere. */
  lemma ConvertedValues(e: Entity, uuid: Uuid, today: Day, termination: Option<Day>)
    requires DistinctNames(e.fields) && CreateConvertedObject(e, uuid, today, termination).Converted?
    ensures var o := CreateConvertedObject(e, uuid, today, termination).converted;
      && (forall f <- e.fields :: HasValue(f) ==> f.name in o.attributes && o.attributes[f.name] == f.rendering.value)
      && (forall a <- e.cls.optional :: a in o.attributes
            && ((forall f <- e.fields :: f.name == a ==> !HasValue(f)) ==> o.attributes[a] == e.cls.optional[a]))
  {
    hide FirstFailure, TruthyValues;
    forall a { TruthyValuesIs(e.fields, a); }
  }

  /** The order of the fields matters for nothing but which of several failures is reported. */
  lemma ConversionIgnoresOrder(e: Entity, others: seq<Field>, uuid: Uuid, today: Day, termination: Option<Day>)
    requires DistinctNames(e.fields) && DistinctNames(others) && Permutes(e.fields, others)
    ensures ClassOf(CreateConvertedObject(e, uuid, today, termination))
         == ClassOf(CreateConvertedObject(e.(fields := others), uuid, today, termination))
  {
    hide Acceptable, TruthyValues;
    PermutedElements(e.fields, others);
    FirstFailureIff(e.fields);
    FirstFailureIff(others);
    TruthyValuesPermute(e.fields, others);
    hide FirstFailure;
    assert Names(e.fields) == Names(others);
  }

  // ---------------------------------------------------------------------------------------------
  // The stored object
  // ---------------------------------------------------------------------------------------------

  predicate Covers(v: Option<Validity>, instant: int) {
    v.None? || (v.value.start * DAY <= instant && (v.value.end.None? || instant < v.value.end.value * DAY))
  }

  predicate IsCurrent(v: Option<Validity>, now: int) {
    v.None? || (v.value.start * DAY < now && (v.value.end.None? || now < v.value.end.value * DAY))
  }

  predicate EndsNoLater(v: Option<Validity>, w: Option<Validity>) {
    w.None? || w.value.end.None? || (v.Some? && v.value.end.Some? && v.value.end.value <= w.value.end.value)
  }

  /** The version reading an object comes up with: the current one, else the one that ends last. */
  predicate IsRead(versions: set<MoObject>, now: int, o: MoObject) {
    && o in versions
    && (versions == {o} || IsCurrent(o.validity, now)
        || forall p <- versions :: !IsCurrent(p.validity, now) && EndsNoLater(p.validity, o.validity))
  }

  lemma EndsOrder(u: Option<Validity>, v: Option<Validity>, w: Option<Validity>)
    ensures EndsNoLater(w, w)
    ensures EndsNoLater(u, v) && !EndsNoLater(w, v) ==> EndsNoLater(u, w)
  {
  }

  predicate StartsBefore(v: Validity, start: Day) {
    v.start < start
  }

  predicate EndsAfter(v: Validity, end: Option<Day>) {
    end.Some? && (v.end.None? || end.value < v.end.value)
  }

  /** What is left of a validity before an interval, and after it. */
  function Before(v: Validity, start: Day): Validity {
    v.(end := if v.end.Some? && v.end.value <= start then v.end else Some(start))
  }

  function Afterwards(v: Validity, end: Day): Validity {
    v.(start := if v.start < end then end else v.start)
  }

  /** The versions with an interval cut out of them. */
  function CutOut(versions: set<MoObject>, start: Day, end: Option<Day>): set<MoObject> {
    (set p <- versions | p.validity.Some? && StartsBefore(p.validity.value, start) ::
      p.(validity := Some(Before(p.validity.value, start)))) +
    (set p <- versions | p.validity.Some? && EndsAfter(p.validity.value, end) ::
      p.(validity := Some(Afterwards(p.validity.value, end.value))))
  }

  /** MO after an edit: in the interval of the object there is nothing but the object. */
  function Edited(versions: set<MoObject>, o: MoObject): set<MoObject> {
    if o.validity.None? then {o} else CutOut(versions, o.validity.value.start, o.validity.value.end) + {o}
  }

  /** The versions of every object in MO. */
  type Store = map<Uuid, set<MoObject>>

  /** Creating an engagement sends null for an extension that is unset. */
  function Sanitized(cls: MoClass, o: MoObject): MoObject {
    o.(attributes := map a <- o.attributes ::
      if a in cls.extensions && o.attributes[a] == UNSET then Null else o.attributes[a])
  }

  /** What editing an engagement sends for an extension: null to keep it, an empty text to clear it. */
  function Patch(v: Value): Value {
    if v == UNSET then Null else if v == Null then Text("") else v
  }

  /** What MO makes of it: null leaves the value as it is, an empty text clears it. */
  function Patched(was: Value, patch: Value): Value {
    if patch == Null then was else if patch == Text("") then Null else patch
  }

  function StoredBy(cls: MoClass, was: MoObject, o: MoObject): MoObject {
    o.(attributes := map a <- o.attributes ::
      if a in cls.extensions && a in was.attributes then Patched(was.attributes[a], Patch(o.attributes[a]))
      else o.attributes[a])
  }

  predicate WellFormedValidity(v: Validity) {
    v.end.Some? ==> v.start < v.end.value
  }

  predicate Disjoint(v: Validity, w: Validity) {
    (v.end.Some? && v.end.value <= w.start) || (w.end.Some? && w.end.value <= v.start)
  }

  /** A version as MO stores it: every attribute of the class has a value, and no extension is unset or empty. */
  predicate IsVersion(cls: MoClass, u: Uuid, o: MoObject) {
    && o.uuid == u && o.attributes.Keys == cls.required + cls.optional.Keys
    && (o.validity.Some? <==> cls.dated) && (o.validity.Some? ==> WellFormedValidity(o.validity.value))
    && forall a <- cls.extensions :: a in o.attributes && o.attributes[a] != UNSET && o.attributes[a] != Text("")
  }

  ghost predicate AreVersions(cls: MoClass, u: Uuid, versions: set<MoObject>) {
    && (forall o <- versions :: IsVersion(cls, u, o))
    && (forall o <- versions, p <- versions :: o != p ==>
          o.validity.Some? && p.validity.Some? && Disjoint(o.validity.value, p.validity.value))
  }

  /** What is left of one version, before the interval or after it. */
  predicate IsPiece(v: Validity, of: Validity, start: Day, end: Option<Day>) {
    (StartsBefore(of, start) && v == Before(of, start)) || (EndsAfter(of, end) && v == Afterwards(of, end.value))
  }

  lemma PieceIs(v: Validity, of: Validity, start: Day, end: Option<Day>)
    requires IsPiece(v, of, start, end) && WellFormedValidity(of) && (end.Some? ==> start < end.value)
    ensures WellFormedValidity(v) && Disjoint(v, Validity(start, end))
  {
  }

  lemma PiecesAreDisjoint(v: Validity, of: Validity, w: Validity, from: Validity, start: Day, end: Option<Day>)
    requires IsPiece(v, of, start, end) && IsPiece(w, from, start, end) && (end.Some? ==> start < end.value)
    requires if of == from then v != w else Disjoint(of, from)
    ensures Disjoint(v, w)
  {
  }

  /** An edit keeps the versions disjoint. */
  lemma EditedAreVersions(cls: MoClass, u: Uuid, versions: set<MoObject>, o: MoObject)
    requires AreVersions(cls, u, versions) && IsVersion(cls, u, o)
    ensures AreVersions(cls, u, Edited(versions, o))
  {
    if o.validity.Some? {
      CutOutAreVersions(cls, u, versions, o.validity.value.start, o.validity.value.end);
      hide CutOut, IsVersion;
      forall p <- CutOut(versions, o.validity.value.start, o.validity.value.end)
        ensures p.validity.Some? && Disjoint(p.validity.value, o.validity.value)
      {}
    }
  }

  lemma CutOutAreVersions(cls: MoClass, u: Uuid, versions: set<MoObject>, start: Day, end: Option<Day>)
    requires AreVersions(cls, u, versions) && (end.Some? ==> start < end.value)
    ensures AreVersions(cls, u, CutOut(versions, start, end))
    ensures forall p <- CutOut(versions, start, end) ::
      p.validity.Some? && Disjoint(p.validity.value, Validity(start, end))
  {
    var cut := CutOut(versions, start, end);
    forall p <- cut
      ensures IsVersion(cls, u, p) && p.validity.Some? && Disjoint(p.validity.value, Validity(start, end))
    {
      var p0 := PieceOf(versions, start, end, p);
      PieceIs(p.validity.value, p0.validity.value, start, end);
    }
    forall p <- cut, q <- cut | p != q
      ensures p.validity.Some? && q.validity.Some? && Disjoint(p.validity.value, q.validity.value)
    {
      var p0, q0 := PieceOf(versions, start, end, p), PieceOf(versions, start, end, q);
      hide CutOut, IsVersion;
      assert p0 != q0 ==> Disjoint(p0.validity.value, q0.validity.value);
      if p0.validity == q0.validity && p0 != q0 {
        DisjointFromItself(cls, u, p0);
      }
      PiecesAreDisjoint(p.validity.value, p0.validity.value, q.validity.value, q0.validity.value, start, end);
    }
  }

  lemma DisjointFromItself(cls: MoClass, u: Uuid, o: MoObject)
    requires IsVersion(cls, u, o) && o.validity.Some?
    ensures !Disjoint(o.validity.value, o.validity.value)
  {
  }

  ghost function PieceOf(versions: set<MoObject>, start: Day, end: Option<Day>, p: MoObject): (origin: MoObject)
    requires p in CutOut(versions, start, end)
    ensures origin in versions && origin.validity.Some? && p.validity.Some?
    ensures p == origin.(validity := p.validity) && IsPiece(p.validity.value, origin.validity.value, start, end)
  {
    var origin :| origin in versions && origin.validity.Some? && p.validity.Some?
      && p == origin.(validity := p.validity) && IsPiece(p.validity.value, origin.validity.value, start, end);
    origin
  }

  /** Whether the object has these attributes at an instant. */
  predicate Holds(versions: set<MoObject>, instant: int, attributes: map<string, Value>) {
    exists o <- versions :: Covers(o.validity, instant) && o.attributes == attributes
  }

  /** At every instant an edit leaves the object as it was, or makes it the edited one. */
  lemma EditedIs(cls: MoClass, u: Uuid, versions: set<MoObject>, o: MoObject, instant: int,
                 attributes: map<string, Value>)
    requires AreVersions(cls, u, versions) && IsVersion(cls, u, o)
    ensures Holds(Edited(versions, o), instant, attributes) <==>
            if Covers(o.validity, instant) then attributes == o.attributes else Holds(versions, instant, attributes)
  {
  }

  /** A version as MO answers with it, to the microsecond, under its number in the answer. */
  function Dated(o: MoObject, number: nat): Validities.Validity
    requires o.validity.Some? && WithinTime(o.validity.value)
  {
    Validities.Validity(number, false, Some(o.validity.value.start * DAY),
                        if o.validity.value.end.None? then None else Some(o.validity.value.end.value * DAY))
  }

  predicate WithinTime(v: Validity) {
    v.start * DAY < Validities.DATETIME_MAX && (v.end.Some? ==> v.end.value * DAY < Validities.DATETIME_MAX)
  }

  /** Every version once, in any order. */
  ghost predicate Lists(order: seq<MoObject>, versions: set<MoObject>) {
    && (forall o :: o in order <==> o in versions)
    && (forall i, j :: 0 <= i < j < |order| ==> order[i] != order[j])
  }

  /** The choice among dated values reads a version here: it does not fail, and what it returns is one. */
  lemma ChoiceIsRead(cls: MoClass, u: Uuid, versions: set<MoObject>, order: seq<MoObject>, now: int)
    requires cls.dated && AreVersions(cls, u, versions) && Lists(order, versions) && versions != {}
      && now <= Validities.DATETIME_MAX
    requires forall o <- versions :: o.validity.Some? && WithinTime(o.validity.value)
    ensures var vs := seq(|order|, i requires 0 <= i < |order| => Dated(order[i], i));
            var choice := Validities.ExtractCurrentOrLatest(vs, now);
      choice.Ok? && choice.value.Some? && choice.value.value.uuid < |order|
        && IsRead(versions, now, order[choice.value.value.uuid])
  {
    var vs := seq(|order|, i requires 0 <= i < |order| => Dated(order[i], i));
    assert order != [] by {
      var o :| o in versions;
      assert o in order;
    }
    forall i | 0 <= i < |order|
      ensures Validities.IsCurrent(vs[i], now) <==> IsCurrent(order[i].validity, now)
    {
      assert order[i] in order;
    }
    NoTwoCurrent(cls, u, versions, order, now);
    Validities.FailsIff(vs, now);
    Validities.ChoiceIs(vs, now);
    var k := Validities.ExtractCurrentOrLatest(vs, now).value.value.uuid;
    assert vs[k] == Validities.ExtractCurrentOrLatest(vs, now).value.value;
    ChosenIsRead(versions, order, now, k);
  }

  lemma NoTwoCurrent(cls: MoClass, u: Uuid, versions: set<MoObject>, order: seq<MoObject>, now: int)
    requires cls.dated && AreVersions(cls, u, versions) && Lists(order, versions)
    ensures forall i, j :: 0 <= i < j < |order| ==>
      !IsCurrent(order[i].validity, now) || !IsCurrent(order[j].validity, now)
  {
    forall i, j | 0 <= i < j < |order|
      ensures !IsCurrent(order[i].validity, now) || !IsCurrent(order[j].validity, now)
    {
      assert order[i] in versions && order[j] in versions && order[i] != order[j];
    }
  }

  lemma ChosenIsRead(versions: set<MoObject>, order: seq<MoObject>, now: int, k: nat)
    requires Lists(order, versions) && k < |order|
    requires forall o <- versions :: o.validity.Some? && WithinTime(o.validity.value)
    requires var chosen := Dated(order[k], k);
      |order| == 1 || IsCurrent(order[k].validity, now)
      || forall i :: 0 <= i < |order| ==>
           !IsCurrent(order[i].validity, now) && Validities.EndOf(Dated(order[i], i)) <= Validities.EndOf(chosen)
    ensures IsRead(versions, now, order[k])
  {
    assert order[k] in order;
    if |order| == 1 {
      assert versions == {order[k]} by {
        assert forall o <- versions :: o in order && o == order[k];
      }
    } else if !IsCurrent(order[k].validity, now) {
      forall p <- versions ensures !IsCurrent(p.validity, now) && EndsNoLater(p.validity, order[k].validity) {
        var i :| 0 <= i < |order| && order[i] == p;
      }
    }
  }

  // ---------------------------------------------------------------------------------------------
  // import_single_entity
  // ---------------------------------------------------------------------------------------------

  /** The attributes an update changes; a converted value that is UNSET asks for no change. */
  function UpdateValues(names: set<string>, stored: MoObject, converted: MoObject): map<string, Value> {
    map a <- converted.attributes | a in names && converted.attributes[a] != UNSET
                                    && !(a in stored.attributes && stored.attributes[a] == converted.attributes[a])
      :: converted.attributes[a]
  }

  function EndOf(v: Option<Validity>): Option<Day> {
    if v.None? then None else v.value.end
  }

  /** The object to upload, unless nothing would change but the first day of its validity. */
  function EditFor(names: set<string>, stored: MoObject, converted: MoObject): Option<MoObject> {
    var values := UpdateValues(names, stored, converted);
    if values == map[] && (converted.validity.None? || EndOf(stored.validity) == EndOf(converted.validity)) then None
    else Some(stored.(attributes := stored.attributes + values,
                      validity := if converted.validity.Some? then converted.validity else stored.validity))
  }

  /** The error of a template that did not render to a value; a skip is none. */
  function ErrorOf<T>(rendering: Rendering<T>): Option<ImportError> {
    match rendering
    case Requeue => Some(Requeued)
    case Failure(message) => Some(Failed(message))
    case _ => None
  }

  /** Everything an import uploads, in order, for the version of the object that was read, if any. */
  function PlanFor(e: Entity, now: int, newUuid: Uuid, stored: Option<MoObject>): Plan {
    match e.uuid
    case Skip => Plan([], None)
    case Requeue => Plan([], Some(Requeued))
    case Failure(message) => Plan([], Some(Failed(message)))
    case Given(uuid) =>
      match e.termination
      case Skip => Plan([], None)
      case Requeue => Plan([], Some(Requeued))
      case Failure(message) => Plan([], Some(Failed(message)))
      case Given(termination) =>
        var id := if uuid.Some? then uuid.value else newUuid;
        var conversion := CreateConvertedObject(e, id, Today(now), termination);
        if stored.None? then
          match conversion
          case Converted(o) => Plan([Create(o)], None)
          case Rejected(error) => Plan([], Some(error))
          case _ => Plan([], None)
        else
          var terminations :=
            if e.doActuallyTerminate && termination.Some? then [Terminate(id, termination.value)] else [];
          if terminations != [] && !e.cls.dated then Plan([], Some(CannotTerminate))
          else match conversion
          case Converted(o) =>
            var edit := EditFor(Names(e.fields), stored.value, o);
            Plan(terminations + if edit.Some? then [Edit(edit.value)] else [], None)
          case Rejected(error) =>
            Plan(terminations, if error == EmptyFields && termination.Some? then None else Some(error))
          case _ => Plan(terminations, None)
  }

  // ---------------------------------------------------------------------------------------------
  // What an edit is
  // ---------------------------------------------------------------------------------------------

  /** The value an edit leaves in an attribute. */
  function Wanted(names: set<string>, stored: MoObject, converted: MoObject, a: string): Value
    requires a in stored.attributes
  {
    if a in names && a in converted.attributes && converted.attributes[a] != UNSET then converted.attributes[a]
    else stored.attributes[a]
  }

  /** An edit keeps the id and every attribute that is not mapped, and sets the mapped ones unless they
      are unset; there is one exactly if an attribute or the last day of the validity would change. */
  lemma EditIs(cls: MoClass, names: set<string>, stored: MoObject, converted: MoObject)
    requires IsVersion(cls, stored.uuid, stored)
    requires converted.attributes.Keys == stored.attributes.Keys && (converted.validity.Some? <==> cls.dated)
    ensures EditFor(names, stored, converted).None? <==>
      && (forall a <- stored.attributes :: Wanted(names, stored, converted, a) == stored.attributes[a])
      && (cls.dated ==> EndOf(stored.validity) == EndOf(converted.validity))
    ensures var edit := EditFor(names, stored, converted); edit.Some? ==>
      && edit.value.uuid == stored.uuid && edit.value.validity == converted.validity
      && edit.value.attributes.Keys == stored.attributes.Keys
      && forall a <- stored.attributes :: edit.value.attributes[a] == Wanted(names, stored, converted, a)
  {
    var values := UpdateValues(names, stored, converted);
    if values == map[] {
      forall a <- stored.attributes ensures Wanted(names, stored, converted, a) == stored.attributes[a] {
        assert a !in values;
      }
    }
  }

  lemma ConvertedIs(e: Entity, uuid: Uuid, today: Day, termination: Option<Day>)
    requires ValidClass(e.cls) && CreateConvertedObject(e, uuid, today, termination).Converted?
    ensures var o := CreateConvertedObject(e, uuid, today, termination).converted;
      && o.uuid == uuid && o.attributes.Keys == e.cls.required + e.cls.optional.Keys
      && o.validity == (if e.cls.dated then Some(Validity(today, termination)) else None)
      && (e.cls.dated && termination.Some? ==> today + 2 <= termination.value)
  {
    hide FirstFailure, Names, TruthyValues;
  }

  // ---------------------------------------------------------------------------------------------
  // What an import comes to
  // ---------------------------------------------------------------------------------------------

  /** Without an id or a termination rendered, nothing is uploaded; the error is that of the first of the two. */
  ghost predicate EndsEarly(e: Entity, uploads: seq<Upload>, error: Option<ImportError>) {
    && uploads == []
    && (error == None <==> e.uuid.Skip? || (e.uuid.Given? && e.termination.Skip?))
    && (error == Some(Requeued) <==> e.uuid.Requeue? || (e.uuid.Given? && e.termination.Requeue?))
    && forall m :: error == Some(Failed(m)) <==>
         e.uuid == Failure(m) || (e.uuid.Given? && e.termination == Failure(m))
  }

  /** What MO lacks is created as converted and nothing else is uploaded; what is rejected is an error. */
  ghost predicate Creates(conversion: Conversion, uploads: seq<Upload>, error: Option<ImportError>) {
    && |uploads| == (if conversion.Converted? then 1 else 0)
    && (forall upload <- uploads :: upload == Create(conversion.converted))
    && forall x :: error == Some(x) <==> conversion == Rejected(x)
  }

  predicate AsksToTerminate(e: Entity)
    requires e.termination.Given?
  {
    e.doActuallyTerminate && e.termination.value.Some?
  }

  /** The stored object with what the conversion wants, from the first day of the conversion on. */
  ghost predicate IsEdit(names: set<string>, stored: MoObject, converted: MoObject, o: MoObject) {
    && o.uuid == stored.uuid && o.validity == converted.validity && o.attributes.Keys == stored.attributes.Keys
    && forall a <- stored.attributes :: o.attributes[a] == Wanted(names, stored, converted, a)
  }

  /** An attribute or the last day would change. */
  ghost predicate WouldChange(names: set<string>, stored: MoObject, converted: MoObject) {
    || EndOf(stored.validity) != EndOf(converted.validity)
    || exists a <- stored.attributes :: Wanted(names, stored, converted, a) != stored.attributes[a]
  }

  /** The uploads for a stored object: its termination if asked for, then its edit if anything would change. */
  ghost predicate UploadsForStored(e: Entity, id: Uuid, stored: MoObject, conversion: Conversion, uploads: seq<Upload>)
    requires e.termination.Given?
  {
    var terminates := AsksToTerminate(e);
    var edits := conversion.Converted? && WouldChange(Names(e.fields), stored, conversion.converted);
    && |uploads| == (if terminates then 1 else 0) + (if edits then 1 else 0)
    && (terminates ==> uploads[0] == Terminate(id, e.termination.value.value))
    && (edits ==>
          uploads[|uploads| - 1].Edit?
            && IsEdit(Names(e.fields), stored, conversion.converted, uploads[|uploads| - 1].edited))
  }

  /** What is stored is terminated and edited; what is rejected is an error, except that nothing needs to be
      synchronised where there is a last day. What has no dates cannot be terminated. */
  ghost predicate Updates(e: Entity, id: Uuid, stored: MoObject, conversion: Conversion, uploads: seq<Upload>,
                          error: Option<ImportError>)
    requires e.termination.Given?
  {
    if AsksToTerminate(e) && !e.cls.dated then uploads == [] && error == Some(CannotTerminate)
    else
      && UploadsForStored(e, id, stored, conversion, uploads)
      && forall x :: error == Some(x) <==>
           conversion == Rejected(x) && !(x == EmptyFields && e.termination.value.Some?)
  }

  ghost predicate IsImport(e: Entity, now: int, newUuid: Uuid, stored: Option<MoObject>, uploads: seq<Upload>,
                           error: Option<ImportError>)
  {
    if !e.uuid.Given? || !e.termination.Given? then EndsEarly(e, uploads, error)
    else
      var conversion := CreateConvertedObject(e, IdFor(e, newUuid), Today(now), e.termination.value);
      match stored
      case None => Creates(conversion, uploads, error)
      case Some(m) => Updates(e, IdFor(e, newUuid), m, conversion, uploads, error)
  }

  lemma EditIffChanges(e: Entity, stored: MoObject, id: Uuid, today: Day, last: Option<Day>)
    requires ValidClass(e.cls) && IsVersion(e.cls, stored.uuid, stored)
    requires CreateConvertedObject(e, id, today, last).Converted?
    ensures var o := CreateConvertedObject(e, id, today, last).converted;
      var edit := EditFor(Names(e.fields), stored, o);
      && (edit.Some? <==> WouldChange(Names(e.fields), stored, o))
      && (edit.Some? ==> IsEdit(Names(e.fields), stored, o, edit.value))
  {
    hide CreateConvertedObject, EditFor, Names;
    ConvertedIs(e, id, today, last);
    EditIs(e.cls, Names(e.fields), stored, CreateConvertedObject(e, id, today, last).converted);
  }

  /** The plan is what an import has to come to. */
  lemma PlanIsImport(e: Entity, now: int, newUuid: Uuid, stored: Option<MoObject>)
    requires ValidClass(e.cls) && (stored.Some? ==> IsVersion(e.cls, stored.value.uuid, stored.value))
    ensures var plan := PlanFor(e, now, newUuid, stored);
      IsImport(e, now, newUuid, stored, plan.uploads, plan.error)
  {
    hide CreateConvertedObject, EditFor, IsEdit, WouldChange, IsVersion, Names;
    if e.uuid.Given? && e.termination.Given? {
      var conversion := CreateConvertedObject(e, IdFor(e, newUuid), Today(now), e.termination.value);
      if stored.Some? && conversion.Converted? {
        EditIffChanges(e, stored.value, IdFor(e, newUuid), Today(now), e.termination.value);
      }
    }
  }

  /** No import rewrites the past: an edit of a dated object is valid from today on and, if it ends, for
      at least two days; the id and the attributes that are not mapped are those of the stored version. */
  lemma EditStartsToday(e: Entity, now: int, newUuid: Uuid, stored: MoObject, o: MoObject)
    requires ValidClass(e.cls) && IsVersion(e.cls, stored.uuid, stored)
    requires Edit(o) in PlanFor(e, now, newUuid, Some(stored)).uploads
    ensures o.uuid == stored.uuid && o.attributes.Keys == stored.attributes.Keys
    ensures forall a <- stored.attributes :: a !in Names(e.fields) ==> o.attributes[a] == stored.attributes[a]
    ensures e.cls.dated ==> o.validity.Some? && o.validity.value.start == Today(now)
    ensures e.cls.dated && EndOf(o.validity).Some? ==> Today(now) + 2 <= EndOf(o.validity).value
  {
    hide CreateConvertedObject, EditFor, Names;
    var id := if e.uuid.value.Some? then e.uuid.value.value else newUuid;
    ConvertedIs(e, id, Today(now), e.termination.value);
    EditIs(e.cls, Names(e.fields), stored, CreateConvertedObject(e, id, Today(now), e.termination.value).converted);
  }

  // ---------------------------------------------------------------------------------------------
  // UNSET is never written
  // ---------------------------------------------------------------------------------------------

  lemma TruthyValuesAreTruthy(fields: seq<Field>)
    ensures forall a <- TruthyValues(fields) :: !Falsy(TruthyValues(fields)[a])
  {
  }

  /** A created object is stored without UNSET, except in an attribute that is no extension and whose
      field rendered to it. */
  lemma CreatedWithoutUnset(e: Entity, uuid: Uuid, today: Day, termination: Option<Day>)
    requires ValidClass(e.cls) && CreateConvertedObject(e, uuid, today, termination).Converted?
    ensures var o := Sanitized(e.cls, CreateConvertedObject(e, uuid, today, termination).converted);
      && IsVersion(e.cls, uuid, o)
      && forall a <- o.attributes ::
           o.attributes[a] == UNSET <==>
             a !in e.cls.extensions && a in TruthyValues(e.fields) && TruthyValues(e.fields)[a] == UNSET
    ensures var c := CreateConvertedObject(e, uuid, today, termination).converted;
      forall a <- c.attributes :: var stored := Sanitized(e.cls, c).attributes[a];
        stored == c.attributes[a] || (stored == Null && a in e.cls.extensions && c.attributes[a] == UNSET)
  {
    hide FirstFailure, Names, TruthyValues;
    ConvertedIs(e, uuid, today, termination);
    TruthyValuesAreTruthy(e.fields);
  }

  /** An edit writes UNSET nowhere: a value that is UNSET afterwards was so before. */
  lemma EditedWithoutUnset(e: Entity, names: set<string>, uuid: Uuid, today: Day, termination: Option<Day>,
                           stored: MoObject)
    requires ValidClass(e.cls) && CreateConvertedObject(e, uuid, today, termination).Converted?
    requires IsVersion(e.cls, stored.uuid, stored)
    ensures var edit := EditFor(names, stored, CreateConvertedObject(e, uuid, today, termination).converted);
      edit.Some? ==>
        && IsVersion(e.cls, stored.uuid, edit.value)
        && forall a <- edit.value.attributes :: edit.value.attributes[a] == UNSET ==> stored.attributes[a] == UNSET
  {
    hide FirstFailure, Names, TruthyValues, EditFor;
    ConvertedIs(e, uuid, today, termination);
    TruthyValuesAreTruthy(e.fields);
    EditIs(e.cls, names, stored, CreateConvertedObject(e, uuid, today, termination).converted);
  }

  /** MO stores what is uploaded: of the patch that an edit sends, nothing is lost. */
  lemma StoredAsUploaded(cls: MoClass, was: MoObject, o: MoObject)
    requires IsVersion(cls, o.uuid, o)
    ensures StoredBy(cls, was, o) == o
  {
    assert StoredBy(cls, was, o).attributes == o.attributes;
  }

  // ---------------------------------------------------------------------------------------------
  // The method
  // ---------------------------------------------------------------------------------------------

  function VersionsOf(store: Store, u: Uuid): set<MoObject> {
    if u in store then store[u] else {}
  }

  function Put(store: Store, u: Uuid, versions: set<MoObject>): Store {
    if versions == {} then store - {u} else store[u := versions]
  }

  function Terminated(versions: set<MoObject>, at: Day): set<MoObject> {
    CutOut(versions, at, None)
  }

  /** MO after an upload; an edit is made of the version that was read. */
  function AfterUpload(cls: MoClass, store: Store, stored: Option<MoObject>, upload: Upload): Store {
    match upload
    case Create(o) => Put(store, o.uuid, {Sanitized(cls, o)})
    case Edit(o) =>
      var version := if stored.Some? then StoredBy(cls, stored.value, o) else o;
      Put(store, o.uuid, Edited(VersionsOf(store, o.uuid), version))
    case Terminate(u, at) => Put(store, u, Terminated(VersionsOf(store, u), at))
  }

  function AfterUploads(cls: MoClass, store: Store, stored: Option<MoObject>, uploads: seq<Upload>): Store {
    if uploads == [] then store
    else AfterUpload(cls, AfterUploads(cls, store, stored, uploads[..|uploads| - 1]), stored, uploads[|uploads| - 1])
  }

  lemma AfterOneMore(cls: MoClass, store: Store, stored: Option<MoObject>, uploads: seq<Upload>, upload: Upload)
    ensures AfterUploads(cls, store, stored, uploads + [upload])
         == AfterUpload(cls, AfterUploads(cls, store, stored, uploads), stored, upload)
  {
    hide AfterUpload;
    assert (uploads + [upload])[..|uploads|] == uploads;
  }

  ghost predicate ValidStore(cls: MoClass, store: Store) {
    forall u <- store :: store[u] != {} && AreVersions(cls, u, store[u])
  }

  /** Whether reading the object of an entity may come up with the version, or with none. */
  predicate ReadFor(store: Store, e: Entity, now: int, stored: Option<MoObject>) {
    if e.uuid.Given? && e.uuid.value.Some? && e.uuid.value.value in store then
      stored.Some? && IsRead(store[e.uuid.value.value], now, stored.value)
    else stored.None?
  }

  lemma ReadIsVersion(e: Entity, store: Store, now: int, stored: Option<MoObject>)
    requires ValidStore(e.cls, store) && ReadFor(store, e, now, stored)
    ensures stored.Some? ==> IsVersion(e.cls, stored.value.uuid, stored.value)
  {
    if stored.Some? {
      assert AreVersions(e.cls, e.uuid.value.value, store[e.uuid.value.value]);
    }
  }

  /** The part of MO that holds the objects of one class. */
  class MOAPI {
    var store: Store
    var uploads: seq<Upload>
    const cls: MoClass

    constructor (cls: MoClass, store: Store)
      requires ValidStore(cls, store)
      ensures this.cls == cls && this.store == store && uploads == []
    {
      this.cls, this.store, this.uploads := cls, store, [];
    }

    method UploadObject(stored: Option<MoObject>, upload: Upload)
      modifies this
      ensures uploads == old(uploads) + [upload]
      ensures store == AfterUpload(cls, old(store), stored, upload)
    {
      store := AfterUpload(cls, store, stored, upload);
      uploads := uploads + [upload];
    }

    /** Reads the current version, else the one that ends last. */
    method FetchUuidObject(u: Uuid, now: int) returns (stored: Option<MoObject>)
      requires ValidStore(cls, store)
      ensures stored.None? <==> u !in store
      ensures stored.Some? ==> IsRead(store[u], now, stored.value)
    {
      if u !in store {
        return None;
      }
      hide IsCurrent, EndsNoLater, AreVersions;
      var rest := store[u];
      var latest :| latest in rest;
      rest := rest - {latest};
      while rest != {}
        invariant rest <= store[u] && latest in store[u] - rest
        invariant IsCurrent(latest.validity, now)
          || forall p <- store[u] - rest :: !IsCurrent(p.validity, now) && EndsNoLater(p.validity, latest.validity)
        decreases |rest|
      {
        var p :| p in rest;
        rest := rest - {p};
        if !IsCurrent(latest.validity, now)
          && (IsCurrent(p.validity, now) || !EndsNoLater(p.validity, latest.validity)) {
          forall q <- store[u] ensures EndsNoLater(p.validity, p.validity)
            && (EndsNoLater(q.validity, latest.validity) && !EndsNoLater(p.validity, latest.validity) ==>
              EndsNoLater(q.validity, p.validity))
          {
            EndsOrder(q.validity, latest.validity, p.validity);
          }
          latest := p;
        }
      }
      return Some(latest);
    }
  }

  class SyncTool {
    const moapi: MOAPI

    constructor (moapi: MOAPI)
      ensures this.moapi == moapi
    {
      this.moapi := moapi;
    }

    method CreateObject(e: Entity, now: int, id: Uuid, termination: Option<Day>) returns (error: Option<ImportError>)
      requires e.uuid.Given? && e.termination == Given(termination) && (e.uuid.value.Some? ==> e.uuid.value.value == id)
      requires e.cls == moapi.cls
      modifies moapi
      ensures var plan := PlanFor(e, now, id, None);
        && error == plan.error && moapi.uploads == old(moapi.uploads) + plan.uploads
        && moapi.store == AfterUploads(e.cls, old(moapi.store), None, plan.uploads)
    {
      hide CreateConvertedObject, AfterUpload;
      error := None;
      var conversion := CreateConvertedObject(e, id, Today(now), termination);
      match conversion {
        case Converted(o) => moapi.UploadObject(None, Create(o));
        case Rejected(rejection) => error := Some(rejection);
        case _ =>
      }
    }

    /** Uploads what has changed in the converted object, if that is worth an upload. */
    method EditObject(e: Entity, stored: MoObject, o: MoObject)
      requires e.cls == moapi.cls
      modifies moapi
      ensures var edit := EditFor(Names(e.fields), stored, o);
        if edit.None? then moapi.uploads == old(moapi.uploads) && moapi.store == old(moapi.store)
        else moapi.uploads == old(moapi.uploads) + [Edit(edit.value)]
             && moapi.store == AfterUpload(e.cls, old(moapi.store), Some(stored), Edit(edit.value))
    {
      hide AfterUpload;
      var moAttributes := Names(e.fields) * o.attributes.Keys;
      var upload := stored;
      var updateValues := map a <- moAttributes
        | !(a in upload.attributes && upload.attributes[a] == o.attributes[a]) && o.attributes[a] != UNSET ::
          o.attributes[a];
      assert updateValues == UpdateValues(Names(e.fields), stored, o);
      var validityChanges := o.validity.Some? && o.validity != upload.validity;
      if updateValues == map[] && !validityChanges {
        return;
      }
      if updateValues == map[] && EndOf(upload.validity) == EndOf(o.validity) {
        return;
      }
      upload := upload.(attributes := upload.attributes + updateValues);
      if validityChanges {
        upload := upload.(validity := o.validity);
      }
      moapi.UploadObject(Some(stored), Edit(upload));
    }

    method UpdateObject(e: Entity, now: int, uuid: Uuid, termination: Option<Day>, stored: MoObject)
      returns (error: Option<ImportError>)
      requires e.uuid == Given(Some(uuid)) && e.termination == Given(termination) && e.cls == moapi.cls
      modifies moapi
      ensures var plan := PlanFor(e, now, uuid, Some(stored));
        && error == plan.error && moapi.uploads == old(moapi.uploads) + plan.uploads
        && moapi.store == AfterUploads(e.cls, old(moapi.store), Some(stored), plan.uploads)
    {
      hide CreateConvertedObject, AfterUpload, EditFor;
      error := None;
      if e.doActuallyTerminate && termination.Some? {
        if !e.cls.dated {
          return Some(CannotTerminate);
        }
        moapi.UploadObject(Some(stored), Terminate(uuid, termination.value));
      }
      var conversion := CreateConvertedObject(e, uuid, Today(now), termination);
      match conversion {
        case Rejected(rejection) =>
          error := if rejection == EmptyFields && termination.Some? then None else Some(rejection);
        case Converted(o) =>
          ghost var before, done := old(moapi.store), moapi.uploads[|old(moapi.uploads)|..];
          EditObject(e, stored, o);
          var edit := EditFor(Names(e.fields), stored, o);
          if edit.Some? {
            AfterOneMore(e.cls, before, Some(stored), done, Edit(edit.value));
          }
        case _ =>
      }
    }

    /** Imports one object: the uploads are those planned for the version of the object that was read. */
    method ImportSingleEntity(e: Entity, now: int, newUuid: Uuid)
      returns (error: Option<ImportError>, stored: Option<MoObject>)
      requires ValidClass(e.cls) && e.cls == moapi.cls && ValidStore(e.cls, moapi.store)
      modifies moapi
      ensures ReadFor(old(moapi.store), e, now, stored)
      ensures var plan := PlanFor(e, now, newUuid, stored);
        && error == plan.error && moapi.uploads == old(moapi.uploads) + plan.uploads
        && moapi.store == AfterUploads(e.cls, old(moapi.store), stored, plan.uploads)
      ensures old(moapi.uploads) <= moapi.uploads
        && IsImport(e, now, newUuid, stored, moapi.uploads[|old(moapi.uploads)|..], error)
    {
      hide CreateConvertedObject, IsRead, IsImport, IsVersion;
      error, stored := None, None;
      PlanIsImport(e, now, newUuid, None);
      if !e.uuid.Given? {
        error := ErrorOf(e.uuid);
        return;
      }
      var uuid := e.uuid.value;
      if uuid.Some? {
        stored := moapi.FetchUuidObject(uuid.value, now);
        ReadIsVersion(e, moapi.store, now, stored);
        PlanIsImport(e, now, newUuid, stored);
      }
      if !e.termination.Given? {
        error := ErrorOf(e.termination);
        return;
      }
      if stored.None? {
        error := CreateObject(e, now, if uuid.Some? then uuid.value else newUuid, e.termination.value);
      } else {
        error := UpdateObject(e, now, uuid.value, e.termination.value, stored.value);
      }
    }
  }

  // ---------------------------------------------------------------------------------------------
  // Importing again
  // ---------------------------------------------------------------------------------------------

  /** The mapping asks for no termination, or only for a last day of the validity. */
  predicate NeverTerminates(e: Entity) {
    e.termination.Given? && !(e.doActuallyTerminate && e.termination.value.Some?)
  }

  /** No version ends after the day, if there is one. */
  predicate NothingEndsLater(versions: set<MoObject>, end: Option<Day>) {
    end.Some? ==> forall p <- versions :: p.validity.Some? ==>
      p.validity.value.end.Some? && p.validity.value.end.value <= end.value
  }

  /** The object just edited is the one that is read from then on, until its last day; at the very
      instant it begins, if no version ends after it. */
  lemma ReadAfterEdit(cls: MoClass, u: Uuid, versions: set<MoObject>, o: MoObject, later: int, p: MoObject)
    requires AreVersions(cls, u, versions) && IsVersion(cls, u, o) && IsRead(Edited(versions, o), later, p)
    requires o.validity.Some? ==> o.validity.value.start * DAY <= later
    requires EndOf(o.validity).Some? ==> later < EndOf(o.validity).value * DAY
    requires EndOf(o.validity).Some? ==>
      o.validity.value.start * DAY < later || NothingEndsLater(versions, EndOf(o.validity))
    ensures p == o
  {
    EditedAreVersions(cls, u, versions, o);
    if o.validity.Some? && p != o {
      assert o in Edited(versions, o);
      assert Disjoint(p.validity.value, o.validity.value);
      OthersAreCut(cls, u, versions, o, p);
      if NothingEndsLater(versions, EndOf(o.validity)) {
        NothingIsLeftAfter(versions, o, p);
      }
    }
  }

  lemma NothingIsLeftAfter(versions: set<MoObject>, o: MoObject, p: MoObject)
    requires o.validity.Some? && NothingEndsLater(versions, EndOf(o.validity))
    requires p in CutOut(versions, o.validity.value.start, o.validity.value.end)
    ensures p.validity.Some? && p.validity.value.end.Some? && p.validity.value.end.value <= o.validity.value.start
  {
    var origin := PieceOf(versions, o.validity.value.start, o.validity.value.end, p);
  }

  lemma OthersAreCut(cls: MoClass, u: Uuid, versions: set<MoObject>, o: MoObject, p: MoObject)
    requires AreVersions(cls, u, versions) && IsVersion(cls, u, o) && o.validity.Some?
    requires p in Edited(versions, o) && p != o
    ensures p.validity.Some?
    ensures (p.validity.value.end.Some? && p.validity.value.end.value <= o.validity.value.start)
            || (o.validity.value.end.Some? && o.validity.value.end.value <= p.validity.value.start)
  {
  }

  /** A version that has what a conversion wants needs no edit. */
  lemma NothingToEdit(cls: MoClass, names: set<string>, stored: MoObject, converted: MoObject)
    requires IsVersion(cls, stored.uuid, stored)
    requires converted.attributes.Keys == stored.attributes.Keys && (converted.validity.Some? <==> cls.dated)
    requires EndOf(stored.validity) == EndOf(converted.validity)
    requires forall a <- stored.attributes ::
      converted.attributes[a] == UNSET || converted.attributes[a] == stored.attributes[a] || a !in names
    ensures EditFor(names, stored, converted).None?
  {
    EditIs(cls, names, stored, converted);
  }

  /** Converting again on a later day gives the same object from that day on, or too short an interval. */
  lemma ConvertAgain(e: Entity, id: Uuid, today: Day, termination: Option<Day>, later: Day)
    requires CreateConvertedObject(e, id, today, termination).Converted? && today <= later
    ensures var again := CreateConvertedObject(e, id, later, termination);
      again.SingleDay? || (again.Converted?
        && again.converted.attributes == CreateConvertedObject(e, id, today, termination).converted.attributes)
  {
    hide FirstFailure, Names, TruthyValues, Acceptable;
  }

  /** The id of the object an entity is imported as. */
  function IdFor(e: Entity, newUuid: Uuid): Uuid
    requires e.uuid.Given?
  {
    if e.uuid.value.Some? then e.uuid.value.value else newUuid
  }

  /** The object that one create or edit leaves in MO. */
  predicate Left(e: Entity, now: int, id: Uuid, stored: Option<MoObject>, o: MoObject)
    requires e.termination.Given?
  {
    var conversion := CreateConvertedObject(e, id, Today(now), e.termination.value);
    conversion.Converted? &&
    match stored
    case None => o == Sanitized(e.cls, conversion.converted)
    case Some(m) =>
      var edit := EditFor(Names(e.fields), m, conversion.converted);
      edit.Some? && o == StoredBy(e.cls, m, edit.value)
  }

  /** What is left is a version that agrees with the conversion wherever that asks for a value. */
  lemma LeftIs(e: Entity, now: int, id: Uuid, stored: Option<MoObject>, o: MoObject)
    requires ValidClass(e.cls) && e.termination.Given? && Left(e, now, id, stored, o)
    requires stored.Some? ==> IsVersion(e.cls, id, stored.value)
    ensures IsVersion(e.cls, id, o)
    ensures o.validity == if e.cls.dated then Some(Validity(Today(now), e.termination.value)) else None
    ensures var c := CreateConvertedObject(e, id, Today(now), e.termination.value).converted;
      forall a <- o.attributes ::
        a in c.attributes && (c.attributes[a] == UNSET || c.attributes[a] == o.attributes[a] || a !in Names(e.fields))
  {
    hide CreateConvertedObject, EditFor, StoredBy;
    var today, termination := Today(now), e.termination.value;
    var c := CreateConvertedObject(e, id, today, termination).converted;
    ConvertedIs(e, id, today, termination);
    match stored
    case None => CreatedWithoutUnset(e, id, today, termination);
    case Some(m) =>
      EditedWithoutUnset(e, Names(e.fields), id, today, termination, m);
      EditIs(e.cls, Names(e.fields), m, c);
      StoredAsUploaded(e.cls, m, EditFor(Names(e.fields), m, c).value);
  }

  /** Importing the same object again, now or on any later day, uploads nothing. */
  lemma NothingMoreToUpload(e: Entity, now: int, id: Uuid, stored: Option<MoObject>, o: MoObject, later: int,
                            newUuid: Uuid)
    requires ValidClass(e.cls) && NeverTerminates(e) && Left(e, now, id, stored, o)
    requires stored.Some? ==> IsVersion(e.cls, id, stored.value)
    requires now <= later
    ensures PlanFor(e.(uuid := Given(Some(id))), later, newUuid, Some(o)).uploads == []
  {
    hide CreateConvertedObject, EditFor, Left;
    var again := e.(uuid := Given(Some(id)));
    var termination := e.termination.value;
    SameFields(e, again, id, Today(later), termination);
    assert CreateConvertedObject(e, id, Today(now), termination).Converted? by { LeftConverts(e, now, id, stored, o); }
    ConvertAgain(e, id, Today(now), termination, Today(later));
    LeftIs(e, now, id, stored, o);
    var conversion := CreateConvertedObject(again, id, Today(later), termination);
    if conversion.Converted? {
      ConvertedIs(again, id, Today(later), termination);
      NothingToEdit(e.cls, Names(e.fields), o, conversion.converted);
    }
  }

  lemma LeftConverts(e: Entity, now: int, id: Uuid, stored: Option<MoObject>, o: MoObject)
    requires e.termination.Given? && Left(e, now, id, stored, o)
    ensures CreateConvertedObject(e, id, Today(now), e.termination.value).Converted?
  {
  }

  lemma SameFields(e: Entity, other: Entity, id: Uuid, today: Day, termination: Option<Day>)
    requires e.cls == other.cls && e.fields == other.fields
    ensures CreateConvertedObject(e, id, today, termination) == CreateConvertedObject(other, id, today, termination)
  {
  }

  /** The versions of the object after an import that uploaded something. */
  ghost predicate IsLeft(e: Entity, now: int, id: Uuid, store: Store, stored: Option<MoObject>, after: Store,
                         o: MoObject)
    requires e.termination.Given? && (stored.Some? ==> id in store)
  {
    Left(e, now, id, stored, o) && after == store[id := if stored.Some? then Edited(store[id], o) else {o}]
  }

  /** Without a termination an import uploads at most one object, which is what it leaves. */
  lemma TheUpload(e: Entity, now: int, newUuid: Uuid, stored: Option<MoObject>)
    requires NeverTerminates(e) && PlanFor(e, now, newUuid, stored).uploads != []
    ensures e.uuid.Given?
    ensures CreateConvertedObject(e, IdFor(e, newUuid), Today(now), e.termination.value).Converted?
    ensures var o := CreateConvertedObject(e, IdFor(e, newUuid), Today(now), e.termination.value).converted;
      match stored
      case None => PlanFor(e, now, newUuid, stored).uploads == [Create(o)]
      case Some(m) =>
        var edit := EditFor(Names(e.fields), m, o);
        edit.Some? && PlanFor(e, now, newUuid, stored).uploads == [Edit(edit.value)]
  {
    hide CreateConvertedObject, EditFor;
  }

  lemma VersionsAfterCreate(e: Entity, now: int, id: Uuid, store: Store, o: MoObject)
    requires ValidClass(e.cls) && e.termination.Given?
    requires CreateConvertedObject(e, id, Today(now), e.termination.value) == Converted(o)
    ensures IsLeft(e, now, id, store, None, AfterUpload(e.cls, store, None, Create(o)), Sanitized(e.cls, o))
  {
    hide CreateConvertedObject;
    ConvertedIs(e, id, Today(now), e.termination.value);
  }

  lemma VersionsAfterEdit(e: Entity, now: int, id: Uuid, store: Store, m: MoObject, o: MoObject)
    requires ValidClass(e.cls) && e.termination.Given? && id in store && IsVersion(e.cls, id, m)
    requires CreateConvertedObject(e, id, Today(now), e.termination.value) == Converted(o)
    requires EditFor(Names(e.fields), m, o).Some?
    ensures var edit := EditFor(Names(e.fields), m, o).value;
      IsLeft(e, now, id, store, Some(m), AfterUpload(e.cls, store, Some(m), Edit(edit)), StoredBy(e.cls, m, edit))
  {
    hide CreateConvertedObject, EditFor, StoredBy, CutOut;
    ConvertedIs(e, id, Today(now), e.termination.value);
    VersionId(e.cls, id, m);
    VersionAttributes(e.cls, id, m);
    EditIs(e.cls, Names(e.fields), m, o);
  }

  lemma VersionsLeft(e: Entity, now: int, newUuid: Uuid, store: Store, stored: Option<MoObject>)
    requires ValidClass(e.cls) && ValidStore(e.cls, store) && NeverTerminates(e) && ReadFor(store, e, now, stored)
    requires PlanFor(e, now, newUuid, stored).uploads != []
    ensures e.uuid.Given?
    ensures stored.Some? ==> IdFor(e, newUuid) in store && IsVersion(e.cls, IdFor(e, newUuid), stored.value)
    ensures exists o :: IsLeft(e, now, IdFor(e, newUuid), store, stored,
                               AfterUploads(e.cls, store, stored, PlanFor(e, now, newUuid, stored).uploads), o)
  {
    hide CreateConvertedObject, EditFor, PlanFor, IsLeft, IsVersion, AfterUpload, AfterUploads;
    TheUpload(e, now, newUuid, stored);
    var id := IdFor(e, newUuid);
    var o := CreateConvertedObject(e, id, Today(now), e.termination.value).converted;
    match stored
    case None =>
      AfterOne(e.cls, store, stored, Create(o));
      VersionsAfterCreate(e, now, id, store, o);
    case Some(m) =>
      AfterOne(e.cls, store, stored, Edit(EditFor(Names(e.fields), m, o).value));
      assert AreVersions(e.cls, id, store[id]);
      VersionsAfterEdit(e, now, id, store, m, o);
  }

  lemma AfterOne(cls: MoClass, store: Store, stored: Option<MoObject>, upload: Upload)
    ensures AfterUploads(cls, store, stored, [upload]) == AfterUpload(cls, store, stored, upload)
  {
    assert [upload] == [] + [upload];
    AfterOneMore(cls, store, stored, [], upload);
  }

  /** Whether what has just been edited can be read at that instant: at midnight a version that begins
      is not current yet, and another may end later. */
  predicate ReadsAtOnce(e: Entity, now: int, versions: set<MoObject>)
    requires e.termination.Given?
  {
    now != Today(now) * DAY || NothingEndsLater(versions, e.termination.value)
  }

  /** The import converges: after a create or an edit, importing the unchanged object again uploads
      nothing, at any later instant, and at the same one if what was edited can be read at once. */
  lemma ImportConverges(e: Entity, now: int, newUuid: Uuid, store: Store, stored: Option<MoObject>, later: int,
                        reread: Option<MoObject>)
    requires ValidClass(e.cls) && ValidStore(e.cls, store) && NeverTerminates(e) && ReadFor(store, e, now, stored)
    requires PlanFor(e, now, newUuid, stored).uploads != []
    requires now < later || (now == later && ReadsAtOnce(e, now, VersionsOf(store, IdFor(e, newUuid))))
    requires var again := e.(uuid := Given(Some(IdFor(e, newUuid))));
      ReadFor(AfterUploads(e.cls, store, stored, PlanFor(e, now, newUuid, stored).uploads), again, later, reread)
    ensures PlanFor(e.(uuid := Given(Some(IdFor(e, newUuid)))), later, newUuid, reread).uploads == []
  {
    hide PlanFor, Left, Edited, CreateConvertedObject, AreVersions, AfterUploads;
    VersionsLeft(e, now, newUuid, store, stored);
    var id := IdFor(e, newUuid);
    var after := AfterUploads(e.cls, store, stored, PlanFor(e, now, newUuid, stored).uploads);
    var o :| IsLeft(e, now, id, store, stored, after, o);
    LeftIs(e, now, id, stored, o);
    if reread == Some(o) {
      NothingMoreToUpload(e, now, id, stored, o, later, newUuid);
    } else {
      if e.cls.dated && e.termination.value.Some? && later >= e.termination.value.value * DAY {
        TooLateToUpload(e.(uuid := Given(Some(id))), later, newUuid, reread);
      } else {
        ReadAfterEdit(e.cls, id, store[id], o, later, reread.value);
      }
    }
  }

  /** Once the last day is near, converting yields nothing to upload. */
  lemma TooLateToUpload(e: Entity, now: int, newUuid: Uuid, stored: Option<MoObject>)
    requires ValidClass(e.cls) && e.cls.dated && NeverTerminates(e) && e.termination.value.Some?
    requires e.termination.value.value - Today(now) <= 1
    ensures PlanFor(e, now, newUuid, stored).uploads == []
  {
  }

  /** What is read at the midnight it begins, if another version ends later, ends later as well. */
  lemma ReadEndsLater(cls: MoClass, u: Uuid, versions: set<MoObject>, o: MoObject, now: int, p: MoObject)
    requires AreVersions(cls, u, versions) && IsVersion(cls, u, o) && IsRead(Edited(versions, o), now, p)
    requires o.validity.Some? && o.validity.value.start * DAY == now && !NothingEndsLater(versions, EndOf(o.validity))
    ensures EndOf(p.validity) != EndOf(o.validity) && IsVersion(cls, u, p)
  {
    EditedAreVersions(cls, u, versions, o);
    var end := EndOf(o.validity).value;
    var q :| q in versions && q.validity.Some? && !(q.validity.value.end.Some? && q.validity.value.end.value <= end);
    var rest := q.(validity := Some(Afterwards(q.validity.value, end)));
    assert rest in Edited(versions, o);
    assert o in Edited(versions, o);
    if p != o {
      assert Disjoint(p.validity.value, o.validity.value);
    }
  }

  /** And otherwise not: at midnight, if another version ends later, the same import uploads again. */
  lemma RepeatsAtMidnight(e: Entity, now: int, newUuid: Uuid, store: Store, stored: Option<MoObject>,
                          reread: Option<MoObject>)
    requires ValidClass(e.cls) && ValidStore(e.cls, store) && NeverTerminates(e) && ReadFor(store, e, now, stored)
    requires PlanFor(e, now, newUuid, stored).uploads != [] && e.cls.dated && newUuid !in store
    requires !ReadsAtOnce(e, now, VersionsOf(store, IdFor(e, newUuid)))
    requires var again := e.(uuid := Given(Some(IdFor(e, newUuid))));
      ReadFor(AfterUploads(e.cls, store, stored, PlanFor(e, now, newUuid, stored).uploads), again, now, reread)
    ensures PlanFor(e.(uuid := Given(Some(IdFor(e, newUuid)))), now, newUuid, reread).uploads != []
  {
    hide Left, Edited, CreateConvertedObject, AreVersions, AfterUploads, IsVersion, NothingEndsLater, IsRead, EditFor;
    hide Names;
    VersionsLeft(e, now, newUuid, store, stored);
    TheUpload(e, now, newUuid, stored);
    var id := IdFor(e, newUuid);
    var again := e.(uuid := Given(Some(id)));
    var after := AfterUploads(e.cls, store, stored, PlanFor(e, now, newUuid, stored).uploads);
    var o :| IsLeft(e, now, id, store, stored, after, o);
    LeftIs(e, now, id, stored, o);
    assert stored.Some? by {
      NothingInNone(e.termination.value);
    }
    ReadEndsLater(e.cls, id, store[id], o, now, reread.value);
    SameFields(e, again, id, Today(now), e.termination.value);
    ConvertedIs(e, id, Today(now), e.termination.value);
    VersionId(e.cls, id, reread.value);
    VersionAttributes(e.cls, id, reread.value);
    EditIs(e.cls, Names(e.fields), reread.value,
      CreateConvertedObject(e, id, Today(now), e.termination.value).converted);
  }

  lemma NothingInNone(end: Option<Day>)
    ensures NothingEndsLater({}, end)
  {
  }

  /** A termination with the terminate mutator is uploaded every time, so such a mapping never comes to rest. */
  lemma TerminationsRepeat(e: Entity, now: int, newUuid: Uuid, stored: MoObject)
    requires e.uuid.Given? && e.uuid.value.Some? && e.termination.Given? && !NeverTerminates(e) && e.cls.dated
    ensures PlanFor(e, now, newUuid, Some(stored)).uploads[..1] ==
      [Terminate(e.uuid.value.value, e.termination.value.value)]
  {
    hide CreateConvertedObject, EditFor;
  }

  // ---------------------------------------------------------------------------------------------
  // The store
  // ---------------------------------------------------------------------------------------------

  lemma TerminatedHolds(cls: MoClass, u: Uuid, versions: set<MoObject>, at: Day, instant: int,
                        attributes: map<string, Value>)
    requires cls.dated && AreVersions(cls, u, versions)
    ensures Holds(Terminated(versions, at), instant, attributes) <==>
      instant < at * DAY && Holds(versions, instant, attributes)
  {
    hide IsVersion, AreVersions;
    var cut := Terminated(versions, at);
    if p :| p in cut && Covers(p.validity, instant) && p.attributes == attributes {
      var o := PieceOf(versions, at, None, p);
    }
    if o :| o in versions && Covers(o.validity, instant) && o.attributes == attributes && instant < at * DAY {
      VersionIsDated(cls, u, versions, o);
      assert o.(validity := Some(Before(o.validity.value, at))) in cut;
    }
  }

  lemma VersionIsDated(cls: MoClass, u: Uuid, versions: set<MoObject>, o: MoObject)
    requires cls.dated && AreVersions(cls, u, versions) && o in versions
    ensures o.validity.Some?
  {
  }

  lemma TerminatedIs(cls: MoClass, u: Uuid, versions: set<MoObject>, at: Day, instant: int,
                     attributes: map<string, Value>)
    requires cls.dated && AreVersions(cls, u, versions)
    ensures AreVersions(cls, u, Terminated(versions, at))
    ensures Holds(Terminated(versions, at), instant, attributes) <==>
      instant < at * DAY && Holds(versions, instant, attributes)
  {
    TerminatedHolds(cls, u, versions, at, instant, attributes);
    hide AreVersions, Holds, CutOut;
    CutOutAreVersions(cls, u, versions, at, None);
  }

  /** An upload as the import makes them: versions of the class that begin today, and terminations of dated objects. */
  ghost predicate IsUpload(e: Entity, now: int, store: Store, stored: Option<MoObject>, upload: Upload) {
    match upload
    case Create(o) =>
      && o.uuid !in store && stored.None? && IsVersion(e.cls, o.uuid, Sanitized(e.cls, o))
      && (e.cls.dated ==> o.validity.value.start == Today(now))
    case Edit(o) =>
      && stored.Some? && IsVersion(e.cls, o.uuid, o) && (e.cls.dated ==> o.validity.value.start == Today(now))
    case Terminate(_, at) => e.cls.dated && e.termination == Given(Some(at)) && e.doActuallyTerminate
  }

  lemma PlanIs(e: Entity, now: int, newUuid: Uuid, store: Store, stored: Option<MoObject>)
    requires ValidClass(e.cls) && ValidStore(e.cls, store) && newUuid !in store && ReadFor(store, e, now, stored)
    ensures var uploads := PlanFor(e, now, newUuid, stored).uploads;
      |uploads| <= 2 && forall upload <- uploads :: IsUpload(e, now, store, stored, upload)
  {
    hide CreateConvertedObject, EditFor, IsVersion;
    if e.uuid.Given? && e.termination.Given? {
      var id := IdFor(e, newUuid);
      var conversion := CreateConvertedObject(e, id, Today(now), e.termination.value);
      if conversion.Converted? {
        ConvertedIs(e, id, Today(now), e.termination.value);
        if stored.None? {
          CreatedWithoutUnset(e, id, Today(now), e.termination.value);
        } else {
          assert AreVersions(e.cls, id, store[id]);
          VersionId(e.cls, id, stored.value);
          EditedWithoutUnset(e, Names(e.fields), id, Today(now), e.termination.value, stored.value);
          VersionAttributes(e.cls, id, stored.value);
          EditIs(e.cls, Names(e.fields), stored.value, conversion.converted);
        }
      }
    }
  }

  lemma VersionId(cls: MoClass, u: Uuid, o: MoObject)
    requires IsVersion(cls, u, o)
    ensures o.uuid == u && IsVersion(cls, o.uuid, o)
  {
  }

  lemma VersionAttributes(cls: MoClass, u: Uuid, o: MoObject)
    requires IsVersion(cls, u, o)
    ensures o.attributes.Keys == cls.required + cls.optional.Keys
  {
  }

  lemma UploadKeepsStore(e: Entity, now: int, store: Store, stored: Option<MoObject>, upload: Upload)
    requires ValidStore(e.cls, store) && IsUpload(e, now, store, stored, upload)
    ensures ValidStore(e.cls, AfterUpload(e.cls, store, stored, upload))
  {
    hide IsVersion;
    match upload
    case Create(o) =>
      assert AreVersions(e.cls, o.uuid, {Sanitized(e.cls, o)});
    case Edit(o) =>
      StoredAsUploaded(e.cls, stored.value, o);
      EditedAreVersions(e.cls, o.uuid, VersionsOf(store, o.uuid), o);
    case Terminate(u, at) =>
      TerminatedIs(e.cls, u, VersionsOf(store, u), at, 0, map[]);
  }

  lemma UploadKeepsPast(e: Entity, now: int, store: Store, stored: Option<MoObject>, upload: Upload,
                        u: Uuid, instant: int, attributes: map<string, Value>)
    requires ValidStore(e.cls, store) && IsUpload(e, now, store, stored, upload) && e.cls.dated
    requires instant < Today(now) * DAY && (upload.Terminate? ==> instant < upload.at * DAY)
    ensures Holds(VersionsOf(AfterUpload(e.cls, store, stored, upload), u), instant, attributes)
        <==> Holds(VersionsOf(store, u), instant, attributes)
  {
    hide CutOut, Edited, AreVersions, Holds, StoredBy;
    match upload
    case Create(o) =>
      PutIs(store, o.uuid, {Sanitized(e.cls, o)}, u);
      NothingHolds(Sanitized(e.cls, o), instant, attributes);
    case Edit(o) =>
      StoredAsUploaded(e.cls, stored.value, o);
      PutIs(store, o.uuid, Edited(VersionsOf(store, o.uuid), o), u);
      NoVersions(e.cls, o.uuid);
      NotCovered(e.cls, o, instant);
      EditedIs(e.cls, o.uuid, VersionsOf(store, o.uuid), o, instant, attributes);
    case Terminate(v, at) =>
      PutIs(store, v, Terminated(VersionsOf(store, v), at), u);
      NoVersions(e.cls, v);
      TerminatedIs(e.cls, v, VersionsOf(store, v), at, instant, attributes);
  }

  lemma PutIs(store: Store, u: Uuid, versions: set<MoObject>, v: Uuid)
    ensures VersionsOf(Put(store, u, versions), v) == if v == u then versions else VersionsOf(store, v)
  {
  }

  /** What MO says of the object of an upload from then on, and that it says the same of all others: a created
      object is the only version, an edited one holds within its validity, and a terminated one ends. */
  lemma UploadIs(e: Entity, now: int, store: Store, stored: Option<MoObject>, upload: Upload, u: Uuid, instant: int,
                 attributes: map<string, Value>)
    requires ValidStore(e.cls, store) && IsUpload(e, now, store, stored, upload)
    ensures var was := Holds(VersionsOf(store, u), instant, attributes);
      Holds(VersionsOf(AfterUpload(e.cls, store, stored, upload), u), instant, attributes) <==>
        match upload
        case Create(o) =>
          if u != o.uuid then was
          else Covers(o.validity, instant) && attributes == Sanitized(e.cls, o).attributes
        case Edit(o) =>
          if u != o.uuid then was else if Covers(o.validity, instant) then attributes == o.attributes else was
        case Terminate(v, at) => was && (u == v ==> instant < at * DAY)
  {
    hide CutOut, Edited, AreVersions, StoredBy;
    match upload
    case Create(o) =>
      PutIs(store, o.uuid, {Sanitized(e.cls, o)}, u);
    case Edit(o) =>
      StoredAsUploaded(e.cls, stored.value, o);
      PutIs(store, o.uuid, Edited(VersionsOf(store, o.uuid), o), u);
      NoVersions(e.cls, o.uuid);
      hide Holds;
      EditedIs(e.cls, o.uuid, VersionsOf(store, o.uuid), o, instant, attributes);
    case Terminate(v, at) =>
      PutIs(store, v, Terminated(VersionsOf(store, v), at), u);
      NoVersions(e.cls, v);
      hide Holds;
      TerminatedIs(e.cls, v, VersionsOf(store, v), at, instant, attributes);
  }

  lemma NoVersions(cls: MoClass, u: Uuid)
    ensures AreVersions(cls, u, {})
  {
  }

  lemma NotCovered(cls: MoClass, o: MoObject, instant: int)
    requires cls.dated && IsVersion(cls, o.uuid, o) && o.validity.Some? && instant < o.validity.value.start * DAY
    ensures !Covers(o.validity, instant)
  {
  }

  lemma NothingHolds(o: MoObject, instant: int, attributes: map<string, Value>)
    requires o.validity.Some? && instant < o.validity.value.start * DAY
    ensures !Holds({o}, instant, attributes) && !Holds({}, instant, attributes)
  {
  }

  ghost predicate AreUploads(e: Entity, now: int, store: Store, stored: Option<MoObject>, uploads: seq<Upload>) {
    && (forall upload <- uploads :: IsUpload(e, now, store, stored, upload))
    && (|uploads| > 1 ==> stored.Some?)
  }

  predicate TerminateAfter(uploads: seq<Upload>, instant: int) {
    forall upload <- uploads :: upload.Terminate? ==> instant < upload.at * DAY
  }

  lemma {:induction false} UploadsKeep(e: Entity, now: int, store: Store, stored: Option<MoObject>,
                                       uploads: seq<Upload>,
                                       u: Uuid, instant: int, attributes: map<string, Value>)
    requires ValidStore(e.cls, store) && AreUploads(e, now, store, stored, uploads)
    ensures ValidStore(e.cls, AfterUploads(e.cls, store, stored, uploads))
    ensures e.cls.dated && instant < Today(now) * DAY && TerminateAfter(uploads, instant) ==>
      (Holds(VersionsOf(AfterUploads(e.cls, store, stored, uploads), u), instant, attributes)
       <==> Holds(VersionsOf(store, u), instant, attributes))
    decreases |uploads|
  {
    hide ValidStore, Holds, AfterUpload;
    if uploads != [] {
      var k := |uploads| - 1;
      UploadsKeep(e, now, store, stored, uploads[..k], u, instant, attributes);
      var between := AfterUploads(e.cls, store, stored, uploads[..k]);
      assert uploads[k] in uploads;
      assert IsUpload(e, now, between, stored, uploads[k]) by {
        if k == 0 {
          assert uploads[..0] == [];
        }
      }
      UploadKeepsStore(e, now, between, stored, uploads[k]);
      if e.cls.dated && instant < Today(now) * DAY && (uploads[k].Terminate? ==> instant < uploads[k].at * DAY) {
        UploadKeepsPast(e, now, between, stored, uploads[k], u, instant, attributes);
      }
    }
  }

  /** No import of a dated object changes what MO says about an instant before today, unless it terminates
      an object back in time; and MO stays well formed. */
  lemma ImportKeepsPast(e: Entity, now: int, newUuid: Uuid, store: Store, stored: Option<MoObject>,
                        u: Uuid, instant: int, attributes: map<string, Value>)
    requires ValidClass(e.cls) && ValidStore(e.cls, store) && newUuid !in store && ReadFor(store, e, now, stored)
    ensures var after := AfterUploads(e.cls, store, stored, PlanFor(e, now, newUuid, stored).uploads);
      && ValidStore(e.cls, after)
      && (e.cls.dated && instant < Today(now) * DAY && TerminatesNotBefore(e, instant) ==>
            (Holds(VersionsOf(after, u), instant, attributes) <==> Holds(VersionsOf(store, u), instant, attributes)))
  {
    hide ValidStore, Holds, AfterUploads;
    PlanIs(e, now, newUuid, store, stored);
    ManyUploadsAreOfStored(e, now, newUuid, stored);
    UploadsKeep(e, now, store, stored, PlanFor(e, now, newUuid, stored).uploads, u, instant, attributes);
  }

  lemma ManyUploadsAreOfStored(e: Entity, now: int, newUuid: Uuid, stored: Option<MoObject>)
    ensures |PlanFor(e, now, newUuid, stored).uploads| > 1 ==> stored.Some?
    ensures PlanFor(e, now, newUuid, stored).uploads != [] ==> e.termination.Given?
  {
    hide CreateConvertedObject, EditFor;
  }

  /** The import does not terminate an object at or before the instant. */
  predicate TerminatesNotBefore(e: Entity, instant: int) {
    e.termination.Given? && e.doActuallyTerminate && e.termination.value.Some? ==>
      instant < e.termination.value.value * DAY
  }
}
