/** Getting or creating a MO class under a lock: `create_mo_class` (mo_ldap_import_export/moapi.py:964-998)
    and its callers (mo_ldap_import_export/environments/main.py:224-233, 323-370). */
module ClassCreation {
  import opened Wrappers

  type Uuid = nat
  type Caller = nat

  datatype MoClass = MoClass(userKey: string, facet: string)

  type Classes = map<Uuid, MoClass>

  datatype Error = UuidNotFound | NoSuchFacet | Ambiguous | RequestFailed

  function WithKey(classes: Classes, userKey: string): (found: set<Uuid>)
    ensures found <= classes.Keys
  {
    set u <- classes | classes[u].userKey == userKey
  }

  function InFacet(classes: Classes, userKey: string, facet: string): (found: set<Uuid>)
    ensures found <= WithKey(classes, userKey)
  {
    set u <- classes | classes[u] == MoClass(userKey, facet)
  }

  ghost predicate OnePerKey(classes: Classes) {
    forall u, v :: u in classes && v in classes && classes[u].userKey == classes[v].userKey ==> u == v
  }

  /** What a lookup by user key comes to: nothing, the one class, or too many of them. */
  ghost function Lookup(found: set<Uuid>): Result<Option<Uuid>, Error> {
    if found == {} then Ok(None)
    else if exists u :: found == {u} then var u :| found == {u}; Ok(Some(u))
    else Err(Ambiguous)
  }

  /** The uninterrupted get-or-create; `newUuid` is the UUID MO assigns if it comes to creating. */
  ghost function GetOrCreate(classes: Classes, userKey: string, facet: string, newUuid: Uuid)
    : (Classes, Result<Uuid, Error>)
  {
    match Lookup(WithKey(classes, userKey))
    case Err(e) => (classes, Err(e))
    case Ok(Some(u)) => (classes, Ok(u))
    case Ok(None) => (classes[newUuid := MoClass(userKey, facet)], Ok(newUuid))
  }

  ghost predicate HasKey(classes: Classes, userKey: string, u: Uuid) {
    u in classes && classes[u].userKey == userKey
  }

  ghost predicate OnlyHasKey(classes: Classes, userKey: string, u: Uuid) {
    HasKey(classes, userKey, u) && forall v: Uuid :: HasKey(classes, userKey, v) ==> v == u
  }

  /** The store before and after getting or creating a class, and what the caller is told: the class that has
      the key, or the new one; nothing but a new class with key and facet is ever added to the store. */
  ghost predicate GetsOrCreates(before: Classes, userKey: string, facet: string, newUuid: Uuid, after: Classes,
                                result: Result<Uuid, Error>)
  {
    && (forall u: Uuid :: OnlyHasKey(before, userKey, u) ==> result == Ok(u) && after == before)
    && ((forall u: Uuid :: !HasKey(before, userKey, u)) ==>
          result == Ok(newUuid) && Adds(before, userKey, facet, newUuid, after))
    && (forall u: Uuid, v: Uuid :: HasKey(before, userKey, u) && HasKey(before, userKey, v) && u != v ==>
          result == Err(Ambiguous) && after == before)
  }

  ghost predicate Adds(before: Classes, userKey: string, facet: string, newUuid: Uuid, after: Classes) {
    && newUuid in after && after[newUuid].userKey == userKey && after[newUuid].facet == facet
    && after.Keys == before.Keys + {newUuid} && forall u <- before :: after[u] == before[u]
  }

  lemma LookupIs(classes: Classes, userKey: string)
    ensures var found := Lookup(WithKey(classes, userKey));
      && (forall u: Uuid :: found == Ok(Some(u)) <==> OnlyHasKey(classes, userKey, u))
      && (found == Ok(None) <==> forall u: Uuid :: !HasKey(classes, userKey, u))
      && (found == Err(Ambiguous) <==>
        exists u: Uuid, v: Uuid :: HasKey(classes, userKey, u) && HasKey(classes, userKey, v) && u != v)
  {
    var having := WithKey(classes, userKey);
    assert forall u: Uuid :: u in having <==> HasKey(classes, userKey, u);
    hide WithKey, HasKey;
    if u :| u in having {
      if having == {u} {
        assert forall v: Uuid :: having == {v} ==> v in {u};
        assert OnlyHasKey(classes, userKey, u);
      } else {
        var v :| v in having && v != u;
        assert forall w: Uuid :: having == {w} ==> u in {w} && v in {w};
      }
    }
  }

  /** A key in use is answered with its class, a key that is not with a new class, and a key that several
      classes have with an error. */
  lemma GetOrCreateIs(classes: Classes, userKey: string, facet: string, newUuid: Uuid)
    requires newUuid !in classes
    ensures var (after, result) := GetOrCreate(classes, userKey, facet, newUuid);
      GetsOrCreates(classes, userKey, facet, newUuid, after, result)
  {
    LookupIs(classes, userKey);
    hide Lookup, WithKey, HasKey;
  }

  class MOAPI {
    var classes: Classes
    var locked: bool

    constructor (classes: Classes)
      ensures this.classes == classes && !locked
    {
      this.classes, locked := classes, false;
    }

    method LoadMoClassUuid(userKey: string) returns (result: Result<Option<Uuid>, Error>)
      ensures result == Lookup(WithKey(classes, userKey))
      ensures forall u: Uuid :: result == Ok(Some(u)) <==> OnlyHasKey(classes, userKey, u)
      ensures result == Ok(None) <==> forall u: Uuid :: !HasKey(classes, userKey, u)
      ensures result.Err? ==> result == Err(Ambiguous)
    {
      LookupIs(classes, userKey);
      hide OnlyHasKey, HasKey;
      var found := WithKey(classes, userKey);
      if found == {} {
        return Ok(None);
      }
      var u :| u in found;
      if found != {u} {
        assert forall v: Uuid :: found == {v} ==> u in {v} && v == u;
        return Err(Ambiguous);
      }
      assert forall v :: found == {v} ==> v in {u};
      return Ok(Some(u));
    }

    /** The body of `create_mo_class` when nothing else runs. */
    method CreateMoClass(userKey: string, facet: string, newUuid: Uuid) returns (result: Result<Uuid, Error>)
      requires !locked && newUuid !in classes
      modifies this
      ensures !locked
      ensures (classes, result) == GetOrCreate(old(classes), userKey, facet, newUuid)
      ensures GetsOrCreates(old(classes), userKey, facet, newUuid, classes, result)
    {
      GetOrCreateIs(classes, userKey, facet, newUuid);
      hide GetsOrCreates;
      locked := true;
      var existing := LoadMoClassUuid(userKey);
      match existing {
        case Err(e) => result := Err(e);
        case Ok(Some(uuid)) => result := Ok(uuid);
        case Ok(None) =>
          classes := classes[newUuid := MoClass(userKey, facet)];
          result := Ok(newUuid);
      }
      locked := false;
    }
  }

  // ---------------------------------------------------------------------------------------------
  // Any number of callers, interleaved at every request
  // ---------------------------------------------------------------------------------------------

  /** Where a call of `_get_or_create_facet_class` is; from Locked to Leaving it holds the lock. */
  datatype Phase =
    | Started
    | Missing
    | FacetLoaded
    | Locked
    | Checked
    | Leaving(result: Result<Uuid, Error>)
    | Done(result: Result<Uuid, Error>)

  datatype Call = Call(userKey: string, facet: string, phase: Phase)

  datatype State = State(classes: Classes, facets: set<string>, lock: Option<Caller>, calls: map<Caller, Call>)

  datatype Step =
    | Start(caller: Caller, userKey: string, facet: string, default: Option<string>)
    | ReadInFacet(caller: Caller)
    | LoadFacet(caller: Caller)
    | Acquire(caller: Caller)
    | Check(caller: Caller)
    | Create(caller: Caller, newUuid: Uuid)
    | Fail(caller: Caller)
    | Release(caller: Caller)
    | Restart

  predicate Holds(phase: Phase) {
    phase.Locked? || phase.Checked? || phase.Leaving?
  }

  predicate At(s: State, caller: Caller, phase: Phase) {
    caller in s.calls && s.calls[caller].phase == phase
  }

  predicate Enabled(s: State, step: Step) {
    match step
    case Start(caller, _, _, _) => caller !in s.calls
    case ReadInFacet(caller) => At(s, caller, Started)
    case LoadFacet(caller) => At(s, caller, Missing)
    case Acquire(caller) => At(s, caller, FacetLoaded) && s.lock == None
    case Check(caller) => At(s, caller, Locked)
    case Create(caller, newUuid) => At(s, caller, Checked) && newUuid !in s.classes
    case Fail(caller) => caller in s.calls && !s.calls[caller].phase.Leaving? && !s.calls[caller].phase.Done?
    case Release(caller) => caller in s.calls && s.calls[caller].phase.Leaving?
    case Restart => true
  }

  ghost function Moved(s: State, caller: Caller, phase: Phase): State
    requires caller in s.calls
  {
    s.(calls := s.calls[caller := s.calls[caller].(phase := phase)])
  }

  /** One request, or one acquisition or release of the lock, by one caller. A failing request leaves
      through the lock if the caller holds it; a restart forgets all callers and the lock. */
  ghost function Next(s: State, step: Step): State
    requires Enabled(s, step)
  {
    match step
    case Start(caller, userKey, facet, default) =>
      var call :=
        if userKey != "" then Call(userKey, facet, Started)
        else if default.None? then Call(userKey, facet, Done(Err(UuidNotFound)))
        else Call(default.value, facet, Started);
      s.(calls := s.calls[caller := call])
    case ReadInFacet(caller) =>
      (match Lookup(InFacet(s.classes, s.calls[caller].userKey, s.calls[caller].facet))
       case Err(e) => Moved(s, caller, Done(Err(e)))
       case Ok(None) => Moved(s, caller, Missing)
       case Ok(Some(u)) => Moved(s, caller, Done(Ok(u))))
    case LoadFacet(caller) =>
      Moved(s, caller, if s.calls[caller].facet in s.facets then FacetLoaded else Done(Err(NoSuchFacet)))
    case Acquire(caller) => Moved(s, caller, Locked).(lock := Some(caller))
    case Check(caller) =>
      (match Lookup(WithKey(s.classes, s.calls[caller].userKey))
       case Err(e) => Moved(s, caller, Leaving(Err(e)))
       case Ok(None) => Moved(s, caller, Checked)
       case Ok(Some(u)) => Moved(s, caller, Leaving(Ok(u))))
    case Create(caller, newUuid) =>
      Moved(s, caller, Leaving(Ok(newUuid)))
      .(classes := s.classes[newUuid := MoClass(s.calls[caller].userKey, s.calls[caller].facet)])
    case Fail(caller) =>
      Moved(s, caller, if Holds(s.calls[caller].phase) then Leaving(Err(RequestFailed)) else Done(Err(RequestFailed)))
    case Release(caller) => Moved(s, caller, Done(s.calls[caller].phase.result)).(lock := None)
    case Restart => s.(lock := None, calls := map[])
  }

  predicate Answered(phase: Phase) {
    (phase.Leaving? || phase.Done?) && phase.result.Ok?
  }

  ghost predicate Invariant(s: State) {
    && OnePerKey(s.classes)
    && (s.lock.Some? ==> s.lock.value in s.calls)
    && (forall c <- s.calls :: Holds(s.calls[c].phase) <==> s.lock == Some(c))
    && (forall c <- s.calls :: s.calls[c].phase.Checked? ==> WithKey(s.classes, s.calls[c].userKey) == {})
    && (forall c <- s.calls :: Answered(s.calls[c].phase) ==>
          var u := s.calls[c].phase.result.value; u in s.classes && s.calls[c].userKey == s.classes[u].userKey)
  }

  lemma LookupOfOnePerKey(classes: Classes, userKey: string, found: set<Uuid>)
    requires OnePerKey(classes) && found <= WithKey(classes, userKey)
    ensures Lookup(found).Ok?
    ensures Lookup(found).value.None? <==> found == {}
    ensures Lookup(found).value.Some? ==> Lookup(found).value.value in found
  {
    if found != {} {
      var u :| u in found;
      assert forall v <- found :: v in WithKey(classes, userKey) && v == u;
      assert found == {u};
    }
  }

  lemma StepKeepsInvariant(s: State, step: Step)
    requires Invariant(s) && Enabled(s, step)
    ensures Invariant(Next(s, step))
  {
    hide Next, Invariant;
    match step
    case ReadInFacet(_) => LookupKeepsInvariant(s, step);
    case Check(_) => LookupKeepsInvariant(s, step);
    case Create(caller, newUuid) => CreateKeepsInvariant(s, caller, newUuid);
    case Start(_, _, _, _) => EnteringKeepsInvariant(s, step);
    case LoadFacet(_) => EnteringKeepsInvariant(s, step);
    case Acquire(_) => EnteringKeepsInvariant(s, step);
    case _ => LeavingKeepsInvariant(s, step);
  }

  lemma EnteringKeepsInvariant(s: State, step: Step)
    requires Invariant(s) && Enabled(s, step) && (step.Start? || step.LoadFacet? || step.Acquire?)
    ensures Invariant(Next(s, step))
  {
    hide OnePerKey, WithKey, InFacet, Lookup;
    match step
    case Start(_, _, _, _) =>
    case LoadFacet(_) =>
    case Acquire(_) =>
  }

  lemma LeavingKeepsInvariant(s: State, step: Step)
    requires Invariant(s) && Enabled(s, step) && (step.Fail? || step.Release? || step.Restart?)
    ensures Invariant(Next(s, step))
  {
    hide OnePerKey, WithKey, InFacet, Lookup;
    match step
    case Fail(_) =>
    case Release(_) =>
    case Restart =>
  }

  lemma LookupKeepsInvariant(s: State, step: Step)
    requires Invariant(s) && Enabled(s, step) && (step.ReadInFacet? || step.Check?)
    ensures Invariant(Next(s, step))
  {
    var call := s.calls[step.caller];
    LookupOfOnePerKey(s.classes, call.userKey, InFacet(s.classes, call.userKey, call.facet));
    LookupOfOnePerKey(s.classes, call.userKey, WithKey(s.classes, call.userKey));
    hide OnePerKey;
  }

  lemma CreateKeepsInvariant(s: State, caller: Caller, newUuid: Uuid)
    requires Invariant(s) && Enabled(s, Create(caller, newUuid))
    ensures Invariant(Next(s, Create(caller, newUuid)))
  {
    var s' := Next(s, Create(caller, newUuid));
    forall u <- s.classes
      ensures s.classes[u].userKey != s.calls[caller].userKey
    {
      assert u !in WithKey(s.classes, s.calls[caller].userKey);
    }
  }

  // ---------------------------------------------------------------------------------------------
  // Whole runs
  // ---------------------------------------------------------------------------------------------

  ghost predicate Possible(s: State, steps: seq<Step>)
    decreases |steps|
  {
    steps != [] ==> Enabled(s, steps[0]) && Possible(Next(s, steps[0]), steps[1..])
  }

  ghost function Run(s: State, steps: seq<Step>): State
    requires Possible(s, steps)
    decreases |steps|
  {
    if steps == [] then s else Run(Next(s, steps[0]), steps[1..])
  }

  predicate Initial(s: State) {
    s.lock == None && s.calls == map[]
  }

  lemma {:induction false} RunKeepsInvariant(s: State, steps: seq<Step>)
    requires Invariant(s) && Possible(s, steps)
    ensures Invariant(Run(s, steps))
    ensures forall u <- s.classes :: u in Run(s, steps).classes && Run(s, steps).classes[u] == s.classes[u]
    decreases |steps|
  {
    if steps != [] {
      StepKeepsInvariant(s, steps[0]);
      RunKeepsInvariant(Next(s, steps[0]), steps[1..]);
    }
  }

  /** A caller asks for the key it was called with or, if that is empty, for the default; without either it
      is told at once that there is no such class. */
  lemma StartIs(s: State, c: Caller, userKey: string, facet: string, default: Option<string>)
    requires Enabled(s, Start(c, userKey, facet, default))
    ensures var after := Next(s, Start(c, userKey, facet, default));
            && after == s.(calls := s.calls[c := after.calls[c]])
            && (At(after, c, Done(Err(UuidNotFound))) <==> userKey == "" && default == None)
            && forall key :: (userKey != "" && key == userKey) || (userKey == "" && default == Some(key)) ==>
                 after.calls[c] == Call(key, facet, Started)
  {
  }

  /** The caller has found its facet, so it may come to create a class. */
  predicate HasFacet(s: State, c: Caller)
    requires c in s.calls
  {
    s.calls[c].phase in {FacetLoaded, Locked, Checked} ==> s.calls[c].facet in s.facets
  }

  /** No class is ever created in a facet that does not exist. */
  lemma {:induction false} CreatedInFacets(s: State, steps: seq<Step>)
    requires Possible(s, steps) && forall c <- s.calls :: HasFacet(s, c)
    ensures Run(s, steps).facets == s.facets
    ensures forall u <- s.classes :: u in Run(s, steps).classes && Run(s, steps).classes[u] == s.classes[u]
    ensures forall u <- Run(s, steps).classes :: u in s.classes || Run(s, steps).classes[u].facet in s.facets
    decreases |steps|
  {
    if steps != [] {
      var next := Next(s, steps[0]);
      StepCreatesInFacets(s, steps[0]);
      hide Next, Enabled, HasFacet;
      CreatedInFacets(next, steps[1..]);
    }
  }

  lemma StepCreatesInFacets(s: State, step: Step)
    requires Enabled(s, step) && forall c <- s.calls :: HasFacet(s, c)
    ensures var next := Next(s, step);
            && next.facets == s.facets && (forall c <- next.calls :: HasFacet(next, c))
            && (forall u <- s.classes :: u in next.classes && next.classes[u] == s.classes[u])
            && forall u <- next.classes :: u in s.classes || next.classes[u].facet in s.facets
  {
    hide Lookup, InFacet, WithKey;
  }

  /** However any number of callers are interleaved, failing requests and restarts included, there is
      never more than one class per user key, and all callers asking for a key get the same UUID. */
  lemma OneClassPerKey(s: State, steps: seq<Step>, c: Caller, d: Caller)
    requires Initial(s) && OnePerKey(s.classes) && Possible(s, steps)
    ensures OnePerKey(Run(s, steps).classes)
    ensures var end := Run(s, steps);
            c in end.calls && d in end.calls && end.calls[c].userKey == end.calls[d].userKey
            && end.calls[c].phase.Done? && end.calls[c].phase.result.Ok?
            && end.calls[d].phase.Done? && end.calls[d].phase.result.Ok?
            ==> end.calls[c].phase == end.calls[d].phase
    ensures c in Run(s, steps).calls && Run(s, steps).calls[c].phase.Done? ==>
              Run(s, steps).calls[c].phase.result != Err(Ambiguous)
  {
    RunKeepsInvariant(s, steps);
    NeverAmbiguous(s, steps, c);
  }

  ghost predicate NoneAmbiguous(s: State) {
    forall c <- s.calls :: (s.calls[c].phase.Leaving? || s.calls[c].phase.Done?) ==>
      s.calls[c].phase.result != Err(Ambiguous)
  }

  lemma StepNeverAmbiguous(s: State, step: Step)
    requires Invariant(s) && NoneAmbiguous(s) && Enabled(s, step)
    ensures NoneAmbiguous(Next(s, step))
  {
    if step.ReadInFacet? || step.Check? {
      var call := s.calls[step.caller];
      LookupOfOnePerKey(s.classes, call.userKey, InFacet(s.classes, call.userKey, call.facet));
      LookupOfOnePerKey(s.classes, call.userKey, WithKey(s.classes, call.userKey));
    }
  }

  lemma {:induction false} NeverAmbiguous(s: State, steps: seq<Step>, c: Caller)
    requires Invariant(s) && NoneAmbiguous(s) && Possible(s, steps)
    ensures NoneAmbiguous(Run(s, steps))
    decreases |steps|
  {
    if steps != [] {
      var step := steps[0];
      StepNeverAmbiguous(s, step);
      StepKeepsInvariant(s, step);
      hide Next, Enabled, Invariant, NoneAmbiguous;
      NeverAmbiguous(Next(s, step), steps[1..], c);
    }
  }

  /** The lock makes check and create one step: when a caller creates, it does to the store and
      returns what the uninterrupted get-or-create would do at that moment. */
  lemma CreateIsAtomic(s: State, steps: seq<Step>, caller: Caller, newUuid: Uuid)
    requires Initial(s) && OnePerKey(s.classes) && Possible(s, steps)
    requires Enabled(Run(s, steps), Create(caller, newUuid))
    ensures var now := Run(s, steps);
            var after := Next(now, Create(caller, newUuid));
            (after.classes, after.calls[caller].phase.result)
            == GetOrCreate(now.classes, now.calls[caller].userKey, now.calls[caller].facet, newUuid)
  {
    RunKeepsInvariant(s, steps);
  }

  ghost predicate InOtherFacet(classes: Classes, userKey: string, facet: string) {
    exists u <- WithKey(classes, userKey) :: classes[u].facet != facet
  }

  /** The step that gives a caller its answer: the class is of the facet it asked for exactly when the
      key is not in use in another facet just before. */
  lemma AnswerFacetIff(s: State, step: Step, c: Caller)
    requires Invariant(s) && Enabled(s, step) && c in s.calls && !Answered(s.calls[c].phase)
    requires c in Next(s, step).calls && Answered(Next(s, step).calls[c].phase)
    ensures var after := Next(s, step);
            var u := after.calls[c].phase.result.value;
            && u in after.classes
            && (after.classes[u].facet == s.calls[c].facet
                <==> !InOtherFacet(s.classes, s.calls[c].userKey, s.calls[c].facet))
  {
    var call := s.calls[c];
    LookupOfOnePerKey(s.classes, call.userKey, InFacet(s.classes, call.userKey, call.facet));
    LookupOfOnePerKey(s.classes, call.userKey, WithKey(s.classes, call.userKey));
    match step
    case ReadInFacet(_) =>
    case Check(_) =>
    case Create(_, _) =>
  }

  lemma {:induction false} InOtherFacetStays(s: State, steps: seq<Step>, userKey: string, facet: string)
    requires Invariant(s) && Possible(s, steps) && InOtherFacet(s.classes, userKey, facet)
    ensures InOtherFacet(Run(s, steps).classes, userKey, facet)
  {
    RunKeepsInvariant(s, steps);
    var u :| u in WithKey(s.classes, userKey) && s.classes[u].facet != facet;
    assert u in WithKey(Run(s, steps).classes, userKey);
  }

  /** The lookup under the lock ignores the facet. In every run, a caller is given a class of the facet
      it asked for exactly when, before the step that answers it, the key is not in use in another
      facet; if it is so from the start, the caller cannot get the class it asked for. */
  lemma FacetIsRespectedIff(s: State, before: seq<Step>, step: Step, more: seq<Step>, c: Caller)
    requires Initial(s) && OnePerKey(s.classes) && Possible(s, before)
    requires var now := Run(s, before);
             && Enabled(now, step) && c in now.calls && !Answered(now.calls[c].phase)
             && c in Next(now, step).calls && Answered(Next(now, step).calls[c].phase)
             && Possible(Next(now, step), more)
    ensures var now := Run(s, before);
            var call := now.calls[c];
            var u := Next(now, step).calls[c].phase.result.value;
            var end := Run(Next(now, step), more);
            && u in end.classes
            && (end.classes[u].facet == call.facet <==> !InOtherFacet(now.classes, call.userKey, call.facet))
            && (InOtherFacet(s.classes, call.userKey, call.facet) ==> end.classes[u].facet != call.facet)
  {
    hide Next, InOtherFacet, Answered;
    RunKeepsInvariant(s, before);
    var now := Run(s, before);
    AnswerFacetIff(now, step, c);
    StepKeepsInvariant(now, step);
    RunKeepsInvariant(Next(now, step), more);
    if InOtherFacet(s.classes, now.calls[c].userKey, now.calls[c].facet) {
      InOtherFacetStays(s, before, now.calls[c].userKey, now.calls[c].facet);
    }
  }

  /** The state in which one call has got to a phase, all else being as in `s`. */
  ghost function With(s: State, caller: Caller, userKey: string, facet: string, phase: Phase,
                      lock: Option<Caller>): State
  {
    s.(calls := s.calls[caller := Call(userKey, facet, phase)], lock := lock)
  }

  lemma UndisturbedUntilLocked(s: State, c: Caller, userKey: string, facet: string)
    requires s.lock == None && c !in s.calls && userKey != "" && facet in s.facets
    requires InFacet(s.classes, userKey, facet) == {}
    ensures Enabled(s, Start(c, userKey, facet, None))
    ensures Next(s, Start(c, userKey, facet, None)) == With(s, c, userKey, facet, Started, None)
    ensures Next(With(s, c, userKey, facet, Started, None), ReadInFacet(c)) == With(s, c, userKey, facet, Missing, None)
    ensures Next(With(s, c, userKey, facet, Missing, None), LoadFacet(c)) ==
      With(s, c, userKey, facet, FacetLoaded, None)
    ensures Next(With(s, c, userKey, facet, FacetLoaded, None), Acquire(c)) ==
      With(s, c, userKey, facet, Locked, Some(c))
  {
  }

  lemma UndisturbedUntilDone(s: State, c: Caller, userKey: string, facet: string, u: Uuid)
    requires WithKey(s.classes, userKey) == {u}
    ensures Next(With(s, c, userKey, facet, Locked, Some(c)), Check(c)) ==
      With(s, c, userKey, facet, Leaving(Ok(u)), Some(c))
    ensures Next(With(s, c, userKey, facet, Leaving(Ok(u)), Some(c)), Release(c)) ==
      With(s, c, userKey, facet, Done(Ok(u)), None)
  {
    assert Lookup({u}) == Ok(Some(u)) by {
      assert forall v: Uuid :: {u} == {v} ==> v in {u};
    }
  }

  function LockedSteps(c: Caller): seq<Step> {
    [Acquire(c)] + ([Check(c)] + [Release(c)])
  }

  /** All the steps of a call that finds nothing in its facet but does find its key in use. */
  function CallSteps(c: Caller, userKey: string, facet: string): seq<Step> {
    [Start(c, userKey, facet, None)] + ([ReadInFacet(c)] + ([LoadFacet(c)] + LockedSteps(c)))
  }

  lemma UndisturbedLockedSteps(s: State, c: Caller, userKey: string, facet: string, u: Uuid)
    requires s.lock == None && c !in s.calls && userKey != "" && facet in s.facets
    requires WithKey(s.classes, userKey) == {u} && InFacet(s.classes, userKey, facet) == {}
    ensures var s3 := With(s, c, userKey, facet, FacetLoaded, None);
            Possible(s3, LockedSteps(c)) && Run(s3, LockedSteps(c)) == With(s, c, userKey, facet, Done(Ok(u)), None)
  {
    UndisturbedUntilLocked(s, c, userKey, facet);
    UndisturbedUntilDone(s, c, userKey, facet, u);
    hide Next, Possible, Run, InFacet, WithKey;
    RunOfOne(With(s, c, userKey, facet, Leaving(Ok(u)), Some(c)), Release(c));
    RunOfMore(With(s, c, userKey, facet, Locked, Some(c)), Check(c), [Release(c)]);
    RunOfMore(With(s, c, userKey, facet, FacetLoaded, None), Acquire(c), [Check(c)] + [Release(c)]);
  }

  /** A caller that nothing disturbs is handed the class of another facet if the key is in use there. */
  lemma OtherFacetIsReturned(s: State, c: Caller, userKey: string, facet: string, u: Uuid)
    requires s.lock == None && c !in s.calls && userKey != "" && facet in s.facets
    requires WithKey(s.classes, userKey) == {u} && s.classes[u].facet != facet
    ensures Possible(s, CallSteps(c, userKey, facet))
    ensures At(Run(s, CallSteps(c, userKey, facet)), c, Done(Ok(u)))
    ensures EndsWith(s, CallSteps(c, userKey, facet), c, u, s.classes[u].facet)
  {
    assert InFacet(s.classes, userKey, facet) == {} by {
      assert forall v <- InFacet(s.classes, userKey, facet) :: v in WithKey(s.classes, userKey) && v == u;
    }
    UndisturbedUntilLocked(s, c, userKey, facet);
    UndisturbedLockedSteps(s, c, userKey, facet, u);
    hide Next, Possible, Run, InFacet, WithKey, LockedSteps;
    RunOfMore(With(s, c, userKey, facet, Missing, None), LoadFacet(c), LockedSteps(c));
    RunOfMore(With(s, c, userKey, facet, Started, None), ReadInFacet(c), [LoadFacet(c)] + LockedSteps(c));
    RunOfMore(s, Start(c, userKey, facet, None), [ReadInFacet(c)] + ([LoadFacet(c)] + LockedSteps(c)));
  }

  /** A caller that finds nothing, in its facet or elsewhere, and creates. */
  function CreatingSteps(c: Caller, userKey: string, facet: string, newUuid: Uuid): seq<Step> {
    [Start(c, userKey, facet, None)] + ([ReadInFacet(c)] + ([LoadFacet(c)]
    + ([Acquire(c)] + CreateAndLeave(c, newUuid))))
  }

  /** All the steps of a call that nothing disturbs. */
  function UndisturbedSteps(s: State, c: Caller, userKey: string, facet: string, newUuid: Uuid): seq<Step> {
    if InFacet(s.classes, userKey, facet) != {} then [Start(c, userKey, facet, None)] + [ReadInFacet(c)]
    else if WithKey(s.classes, userKey) != {} then CallSteps(c, userKey, facet)
    else CreatingSteps(c, userKey, facet, newUuid)
  }

  ghost predicate EndsWith(s: State, steps: seq<Step>, c: Caller, u: Uuid, facet: string) {
    && Possible(s, steps) && At(Run(s, steps), c, Done(Ok(u)))
    && u in Run(s, steps).classes && Run(s, steps).classes[u].facet == facet
  }

  lemma UndisturbedRead(s: State, c: Caller, userKey: string, facet: string, u: Uuid)
    requires c !in s.calls && userKey != "" && OnePerKey(s.classes) && u in InFacet(s.classes, userKey, facet)
    ensures EndsWith(s, [Start(c, userKey, facet, None)] + [ReadInFacet(c)], c, u, facet)
  {
    LookupOfOnePerKey(s.classes, userKey, InFacet(s.classes, userKey, facet));
    var started := Next(s, Start(c, userKey, facet, None));
    assert At(Next(started, ReadInFacet(c)), c, Done(Ok(u)));
    RunOfOne(started, ReadInFacet(c));
    RunOfMore(s, Start(c, userKey, facet, None), [ReadInFacet(c)]);
  }

  function CreateAndLeave(c: Caller, newUuid: Uuid): seq<Step> {
    [Check(c)] + ([Create(c, newUuid)] + [Release(c)])
  }

  /** Under the lock, with the key not in use. */
  lemma UndisturbedLockedCreate(s: State, c: Caller, userKey: string, facet: string, newUuid: Uuid)
    requires WithKey(s.classes, userKey) == {} && newUuid !in s.classes
    ensures EndsWith(With(s, c, userKey, facet, Locked, Some(c)), CreateAndLeave(c, newUuid), c, newUuid, facet)
  {
    var locked, checked := With(s, c, userKey, facet, Locked, Some(c)), With(s, c, userKey, facet, Checked, Some(c));
    assert Next(locked, Check(c)) == checked;
    var created := Next(checked, Create(c, newUuid));
    assert At(Next(created, Release(c)), c, Done(Ok(newUuid)));
    assert Next(created, Release(c)).classes[newUuid].facet == facet;
    hide Next, Possible, Run, WithKey, With;
    RunOfOne(created, Release(c));
    RunOfMore(checked, Create(c, newUuid), [Release(c)]);
    RunOfMore(locked, Check(c), [Create(c, newUuid)] + [Release(c)]);
  }

  lemma UndisturbedCreate(s: State, c: Caller, userKey: string, facet: string, newUuid: Uuid)
    requires s.lock == None && c !in s.calls && userKey != "" && facet in s.facets
    requires WithKey(s.classes, userKey) == {} && newUuid !in s.classes
    ensures EndsWith(s, CreatingSteps(c, userKey, facet, newUuid), c, newUuid, facet)
  {
    UndisturbedUntilLocked(s, c, userKey, facet);
    UndisturbedLockedCreate(s, c, userKey, facet, newUuid);
    hide Next, Possible, Run, InFacet, WithKey, CreateAndLeave;
    var rest := CreateAndLeave(c, newUuid);
    RunOfMore(With(s, c, userKey, facet, FacetLoaded, None), Acquire(c), rest);
    RunOfMore(With(s, c, userKey, facet, Missing, None), LoadFacet(c), [Acquire(c)] + rest);
    RunOfMore(With(s, c, userKey, facet, Started, None), ReadInFacet(c), [LoadFacet(c)] + ([Acquire(c)] + rest));
    RunOfMore(s, Start(c, userKey, facet, None), [ReadInFacet(c)] + ([LoadFacet(c)] + ([Acquire(c)] + rest)));
  }

  /** A call that nothing disturbs is answered with a class of the facet it asked for exactly when,
      before the call, no class of another facet has the key. */
  lemma UndisturbedFacetIff(s: State, c: Caller, userKey: string, facet: string, newUuid: Uuid)
    requires s.lock == None && c !in s.calls && userKey != "" && facet in s.facets
    requires OnePerKey(s.classes) && newUuid !in s.classes
    ensures exists u, given :: EndsWith(s, UndisturbedSteps(s, c, userKey, facet, newUuid), c, u, given)
                               && (given == facet <==> !InOtherFacet(s.classes, userKey, facet))
  {
    hide EndsWith, CallSteps, CreatingSteps;
    var inFacet, found := InFacet(s.classes, userKey, facet), WithKey(s.classes, userKey);
    if inFacet != {} {
      var u :| u in inFacet;
      assert forall v <- found :: v == u;
      UndisturbedRead(s, c, userKey, facet, u);
      assert EndsWith(s, UndisturbedSteps(s, c, userKey, facet, newUuid), c, u, facet);
    } else if found != {} {
      var u :| u in found;
      assert found == {u};
      assert s.classes[u].facet != facet by {
        assert u !in inFacet;
      }
      OtherFacetIsReturned(s, c, userKey, facet, u);
      assert EndsWith(s, UndisturbedSteps(s, c, userKey, facet, newUuid), c, u, s.classes[u].facet);
    } else {
      UndisturbedCreate(s, c, userKey, facet, newUuid);
      assert !InOtherFacet(s.classes, userKey, facet);
      assert EndsWith(s, UndisturbedSteps(s, c, userKey, facet, newUuid), c, newUuid, facet);
    }
  }

  lemma RunOfOne(s: State, step: Step)
    requires Enabled(s, step)
    ensures Possible(s, [step]) && Run(s, [step]) == Next(s, step)
  {
    assert [step][1..] == [];
  }

  lemma RunOfMore(s: State, step: Step, steps: seq<Step>)
    requires Enabled(s, step) && Possible(Next(s, step), steps)
    ensures Possible(s, [step] + steps) && Run(s, [step] + steps) == Run(Next(s, step), steps)
  {
    assert ([step] + steps)[0] == step && ([step] + steps)[1..] == steps;
  }
}
