/** The export protocol that keeps persons and LDAP accounts together, one request at a time
    (mo_ldap_import_export/import_export.py:146-196, 254-312; mo_ldap_import_export/dataloaders.py:134-342).

    Any number of persons are handled at once, each by at most one handler
    (mo_ldap_import_export/main.py:244-257); a handler may fail and the process may crash anywhere. */
module Correlation {
  import opened Wrappers

  type Person = nat
  type Uuid = nat
  type LinkId = nat
  type Cpr = nat

  /** An LDAP account: its CPR attribute, whether the CPR search covers it, and all the rest. */
  datatype Account = Account(cpr: Option<Cpr>, searchable: bool, rest: nat)

  /** An IT-user of the LDAP IT-system; its user key is the unique id of the account. */
  datatype Link = Link(person: Person, account: Uuid, active: bool)

  /** The discriminator: a filter on single accounts and the choice among those that pass it. */
  datatype Config = Config(hasItSystem: bool, passes: Account -> bool, select: map<Uuid, Account> -> Option<Uuid>)

  /** Where the handling of a person is. */
  datatype Phase =
    | Idle
    | Finding(todo: set<Uuid>, found: map<Uuid, Account>, gone: set<Uuid>, cprRead: bool)
    | Creating
    | Modifying(account: Uuid)
    | Written(account: Uuid)
    | Linking(account: Uuid)

  /** `used`, `creators` and `steady` are history variables: all unique ids there have been, the person
      each account was created for, and of a person being handled the accounts created for it that
      have existed and passed the filter ever since the handling began. */
  datatype State = State(
    cprs: map<Person, Cpr>,
    links: map<LinkId, Link>,
    accounts: map<Uuid, Account>,
    phases: map<Person, Phase>,
    used: set<Uuid>,
    creators: map<Uuid, Person>,
    steady: map<Person, set<Uuid>>)

  datatype Step =
    | Begin(person: Person)
    | ReadAccount(person: Person, account: Uuid)
    | ReadCpr(person: Person)
    | Terminate(person: Person, link: LinkId)
    | Decide(person: Person)
    | Create(person: Person, account: Uuid, value: Account)
    | Modify(person: Person, value: Account)
    | CheckLink(person: Person)
    | CreateLink(person: Person, link: LinkId)
    | Fail(person: Person)
    | Crash
    | Change(account: Uuid, value: Account)
    | Add(account: Uuid, value: Account)
    | Delete(account: Uuid)
    | SetCpr(person: Person, cpr: Option<Cpr>)
    | EndLink(link: LinkId)

  function PhaseOf(s: State, p: Person): Phase {
    if p in s.phases then s.phases[p] else Idle
  }

  function SteadyOf(s: State, p: Person): set<Uuid> {
    if p in s.steady then s.steady[p] else {}
  }

  predicate IsActive(s: State, l: LinkId, p: Person, u: Uuid) {
    l in s.links && s.links[l] == Link(p, u, true)
  }

  predicate Linked(s: State, p: Person, u: Uuid) {
    exists l <- s.links :: IsActive(s, l, p, u)
  }

  function LinkedAccounts(s: State, p: Person): set<Uuid> {
    set l <- s.links | s.links[l].person == p && s.links[l].active :: s.links[l].account
  }

  /** Whether the CPR search for a person with this CPR number would find the account. */
  predicate CprMatches(cpr: Option<Cpr>, a: Account) {
    cpr.Some? && a.cpr == cpr && a.searchable
  }

  function CprOf(s: State, p: Person): Option<Cpr> {
    if p in s.cprs then Some(s.cprs[p]) else None
  }

  function FoundByCpr(s: State, p: Person): map<Uuid, Account> {
    map u <- s.accounts | CprMatches(CprOf(s, p), s.accounts[u]) :: s.accounts[u]
  }

  function Passing(config: Config, found: map<Uuid, Account>): map<Uuid, Account> {
    map u <- found | config.passes(found[u]) :: found[u]
  }

  /** `_find_best_dn`: create if nothing passes the filter, else use the selected account if any. */
  function Decision(config: Config, found: map<Uuid, Account>): Phase {
    var passing := Passing(config, found);
    if passing == map[] then Creating
    else match config.select(passing)
      case Some(u) => if u in passing then Modifying(u) else Idle
      case None => Idle
  }

  predicate Enabled(config: Config, s: State, step: Step) {
    match step
    case Begin(p) => PhaseOf(s, p) == Idle && UniqueLinksOf(s, p)
    case ReadAccount(p, u) => PhaseOf(s, p).Finding? && u in PhaseOf(s, p).todo
    case ReadCpr(p) => PhaseOf(s, p).Finding? && !PhaseOf(s, p).cprRead
    case Terminate(p, l) =>
      && PhaseOf(s, p).Finding? && PhaseOf(s, p).todo == {}
      && l in s.links && s.links[l].active && s.links[l].person == p && s.links[l].account in PhaseOf(s, p).gone
    case Decide(p) =>
      && PhaseOf(s, p).Finding? && PhaseOf(s, p).todo == {} && PhaseOf(s, p).cprRead
      && LinkedAccounts(s, p) !! PhaseOf(s, p).gone
    case Create(p, u, _) => PhaseOf(s, p) == Creating && u !in s.used
    case Modify(p, _) => PhaseOf(s, p).Modifying? && PhaseOf(s, p).account in s.accounts
    case CheckLink(p) => PhaseOf(s, p).Written?
    case CreateLink(p, l) => PhaseOf(s, p).Linking? && l !in s.links
    case Fail(p) => PhaseOf(s, p) != Idle
    case Crash => true
    case Change(u, _) => u in s.accounts
    case Add(u, _) => u !in s.used
    case Delete(u) => u in s.accounts
    case SetCpr(_, _) => true
    case EndLink(l) => l in s.links
  }

  /** What `extract_unique_ldap_uuids` demands: no two links of the person name the same account. */
  predicate UniqueLinksOf(s: State, p: Person) {
    forall l <- s.links, m <- s.links ::
      s.links[l] == s.links[m] && s.links[l].active && s.links[l].person == p ==> l == m
  }

  function To(s: State, p: Person, phase: Phase): State {
    s.(phases := s.phases[p := phase])
  }

  /** The state with other accounts; an account that vanishes or stops passing is no longer steady. */
  function WithAccounts(config: Config, s: State, accounts: map<Uuid, Account>): State {
    s.(accounts := accounts,
       steady := map p <- s.steady :: set u <- s.steady[p] | u in accounts && config.passes(accounts[u]))
  }

  function OwnPassing(config: Config, s: State, p: Person): set<Uuid> {
    set u <- s.accounts | u in s.creators && s.creators[u] == p && config.passes(s.accounts[u])
  }

  function Next(config: Config, s: State, step: Step): State
    requires Enabled(config, s, step)
  {
    match step
    case Begin(p) =>
      To(s, p, Finding(if config.hasItSystem then LinkedAccounts(s, p) else {}, map[], {}, false))
      .(steady := s.steady[p := OwnPassing(config, s, p)])
    case ReadAccount(p, u) =>
      var Finding(todo, found, gone, cprRead) := PhaseOf(s, p);
      if u in s.accounts then To(s, p, Finding(todo - {u}, found[u := s.accounts[u]], gone, cprRead))
      else To(s, p, Finding(todo - {u}, found, gone + {u}, cprRead))
    case ReadCpr(p) =>
      var Finding(todo, found, gone, _) := PhaseOf(s, p);
      To(s, p, Finding(todo, FoundByCpr(s, p) + found, gone, true))
    case Terminate(_, l) => s.(links := s.links[l := s.links[l].(active := false)])
    case Decide(p) => To(s, p, Decision(config, PhaseOf(s, p).found))
    case Create(p, u, a) =>
      To(WithAccounts(config, s, s.accounts[u := a]), p, Written(u))
      .(used := s.used + {u}, creators := s.creators[u := p])
    case Modify(p, a) =>
      var u := PhaseOf(s, p).account;
      To(WithAccounts(config, s, s.accounts[u := a]), p, Written(u))
    case CheckLink(p) =>
      var u := PhaseOf(s, p).account;
      To(s, p, if config.hasItSystem && u in s.accounts && !Linked(s, p, u) then Linking(u) else Idle)
    case CreateLink(p, l) => To(s, p, Idle).(links := s.links[l := Link(p, PhaseOf(s, p).account, true)])
    case Fail(p) => To(s, p, Idle)
    case Crash => s.(phases := map[])
    case Change(u, a) => WithAccounts(config, s, s.accounts[u := a])
    case Add(u, a) => WithAccounts(config, s, s.accounts[u := a]).(used := s.used + {u})
    case Delete(u) => WithAccounts(config, s, s.accounts - {u})
    case SetCpr(p, cpr) => s.(cprs := if cpr.Some? then s.cprs[p := cpr.value] else s.cprs - {p})
    case EndLink(l) => s.(links := s.links[l := s.links[l].(active := false)])
  }

  // ---------------------------------------------------------------------------------------------
  // The invariant
  // ---------------------------------------------------------------------------------------------

  /** The handler of the person has still to check or create the link to the account. */
  predicate LinkPending(s: State, p: Person, u: Uuid) {
    PhaseOf(s, p) == Written(u) || PhaseOf(s, p) == Linking(u)
  }

  /** Whether a lookup for the person is bound to find the account, by link or by CPR number. */
  predicate Findable(config: Config, s: State, p: Person, u: Uuid)
    requires u in s.accounts
  {
    (config.hasItSystem && Linked(s, p, u)) || CprMatches(CprOf(s, p), s.accounts[u])
  }

  /** No account is leaked: it can be found again for its person, or its link is under way. */
  ghost predicate NoneLeaked(config: Config, s: State) {
    forall u <- s.accounts :: u in s.creators ==>
      Findable(config, s, s.creators[u], u) || LinkPending(s, s.creators[u], u)
  }

  /** Every unique id a handler has noted has been used, and those it found gone are gone. */
  ghost predicate IdsOfPhase(s: State, phase: Phase) {
    match phase
    case Finding(todo, _, gone, _) => todo <= s.used && gone <= s.used && gone !! s.accounts.Keys
    case Written(u) => u in s.used
    case Linking(u) => u in s.used
    case _ => true
  }

  ghost predicate IdsUsed(s: State) {
    && s.accounts.Keys <= s.used
    && s.creators.Keys <= s.used
    && (forall l <- s.links :: s.links[l].account in s.used)
    && (forall p <- s.phases :: IdsOfPhase(s, s.phases[p]))
  }

  /** At most one active link between a person and an account. */
  ghost predicate LinksUnique(config: Config, s: State) {
    && (forall p :: UniqueLinksOf(s, p))
    && (forall p <- s.phases :: s.phases[p].Linking? ==> config.hasItSystem && !Linked(s, p, s.phases[p].account))
  }

  ghost predicate SteadyIsOwn(config: Config, s: State) {
    forall p, u :: u in SteadyOf(s, p) ==> u in OwnPassing(config, s, p)
  }

  /** A steady account cannot escape the lookup under way. */
  ghost predicate SteadyFound(config: Config, s: State, p: Person, phase: Phase)
    requires phase.Finding?
  {
    && (config.hasItSystem ==> LinkedAccounts(s, p) <= phase.todo + phase.found.Keys + phase.gone)
    && forall u <- SteadyOf(s, p) ::
         && (u in phase.found ==> config.passes(phase.found[u]))
         && (u in phase.todo || u in phase.found
             || (!phase.cprRead && u in s.accounts && CprMatches(CprOf(s, p), s.accounts[u])))
  }

  ghost predicate LookupsComplete(config: Config, s: State) {
    && (forall p <- s.phases :: s.phases[p].Finding? ==> SteadyFound(config, s, p, s.phases[p]))
    && (forall p <- s.phases :: s.phases[p].Creating? ==> SteadyOf(s, p) == {})
  }

  ghost predicate Invariant(config: Config, s: State) {
    && IdsUsed(s)
    && LinksUnique(config, s)
    && SteadyIsOwn(config, s)
    && LookupsComplete(config, s)
    && NoneLeaked(config, s)
  }

  /** Whether an account of the person would still be found, or its link is under way, if its
      attributes, the person's CPR number or its links were as given. */
  predicate Kept(config: Config, s: State, p: Person, u: Uuid, linked: bool, cpr: Option<Cpr>, a: Account) {
    (config.hasItSystem && linked) || CprMatches(cpr, a) || LinkPending(s, p, u)
  }

  /** The steps that leak no account. Handlers are only restrained where they stop short of the link
      to an account they created; the environment must not cut the last way of finding an account. */
  ghost predicate Allowed(config: Config, s: State, step: Step)
    requires Enabled(config, s, step)
  {
    match step
    case Change(u, a) =>
      u in s.creators ==> Kept(config, s, s.creators[u], u, Linked(s, s.creators[u], u), CprOf(s, s.creators[u]), a)
    case Modify(p, a) =>
      var u := PhaseOf(s, p).account;
      u in s.creators && s.creators[u] != p ==>
        Kept(config, s, s.creators[u], u, Linked(s, s.creators[u], u), CprOf(s, s.creators[u]), a)
    case SetCpr(p, cpr) =>
      forall u <- s.accounts :: u in s.creators && s.creators[u] == p ==>
        Kept(config, s, p, u, Linked(s, p, u), cpr, s.accounts[u])
    case EndLink(l) =>
      var u := s.links[l].account;
      u in s.accounts && u in s.creators && s.creators[u] == s.links[l].person ==>
        var p, linked := s.creators[u], !s.links[l].active && Linked(s, s.creators[u], u);
        Kept(config, s, p, u, linked, CprOf(s, p), s.accounts[u])
    case CheckLink(p) =>
      var u := PhaseOf(s, p).account;
      !config.hasItSystem && u in s.accounts && u in s.creators && s.creators[u] == p ==> Findable(config, s, p, u)
    case Fail(p) =>
      forall u <- s.accounts :: u in s.creators && s.creators[u] == p && LinkPending(s, p, u) ==>
        Findable(config, s, p, u)
    case Crash =>
      forall u <- s.accounts :: u in s.creators && LinkPending(s, s.creators[u], u) ==>
        Findable(config, s, s.creators[u], u)
    case _ => true
  }

  // ---------------------------------------------------------------------------------------------
  // Every step, conjunct by conjunct
  // ---------------------------------------------------------------------------------------------

  lemma PhaseIdsFrame(s: State, after: State, phase: Phase)
    requires IdsOfPhase(s, phase)
    requires s.used <= after.used && (after.accounts.Keys - s.accounts.Keys) !! s.used
    ensures IdsOfPhase(after, phase)
  {
  }

  lemma StoresUsed(config: Config, s: State, step: Step)
    requires IdsUsed(s) && Enabled(config, s, step)
    ensures var after := Next(config, s, step);
      && s.used <= after.used && (after.accounts.Keys - s.accounts.Keys) !! s.used
      && after.accounts.Keys <= after.used && after.creators.Keys <= after.used
      && forall l <- after.links :: after.links[l].account in after.used
  {
    if step.CreateLink? {
      NewLinkUsed(config, s, step.person, step.link);
    } else {
      hide CprMatches, Linked, UniqueLinksOf, OwnPassing, LinkedAccounts, FoundByCpr, Passing, Decision, IdsOfPhase;
    }
  }

  lemma NewLinkUsed(config: Config, s: State, p: Person, l: LinkId)
    requires IdsUsed(s) && Enabled(config, s, CreateLink(p, l))
    ensures PhaseOf(s, p).account in s.used
  {
    assert IdsOfPhase(s, s.phases[p]);
  }

  lemma BeginUsed(config: Config, s: State, p: Person)
    requires IdsUsed(s) && Enabled(config, s, Begin(p))
    ensures var after := Next(config, s, Begin(p)); IdsOfPhase(after, after.phases[p])
  {
    hide CprMatches, Linked, UniqueLinksOf, OwnPassing;
  }

  lemma PhasesUsed(config: Config, s: State, step: Step, p: Person)
    requires IdsUsed(s) && Enabled(config, s, step)
    ensures var after := Next(config, s, step);
      p in after.phases ==> (p in s.phases && after.phases[p] == s.phases[p]) || IdsOfPhase(after, after.phases[p])
  {
    hide CprMatches, Linked, UniqueLinksOf, OwnPassing, LinkedAccounts, FoundByCpr, Passing, CprOf;
    if p in s.phases {
      assert IdsOfPhase(s, s.phases[p]);
    }
    match step
    case Begin(q) => BeginUsed(config, s, q);
    case ReadAccount(_, _) =>
    case ReadCpr(_) =>
    case _ =>
  }

  lemma StepKeepsIds(config: Config, s: State, step: Step)
    requires IdsUsed(s) && Enabled(config, s, step)
    ensures IdsUsed(Next(config, s, step))
  {
    hide Next, Enabled, IdsOfPhase;
    StoresUsed(config, s, step);
    var after := Next(config, s, step);
    forall p <- after.phases ensures IdsOfPhase(after, after.phases[p]) {
      PhasesUsed(config, s, step, p);
      if p in s.phases && after.phases[p] == s.phases[p] {
        PhaseIdsFrame(s, after, s.phases[p]);
      }
    }
  }

  /** Links and phases may change as long as no active link is added and no handler gets as far as linking. */
  lemma LinksFrame(config: Config, s: State, after: State)
    requires LinksUnique(config, s)
    requires after.links.Keys == s.links.Keys
    requires forall l <- s.links :: after.links[l] == s.links[l] || !after.links[l].active
    requires forall p <- after.phases :: after.phases[p].Linking? ==> p in s.phases && after.phases[p] == s.phases[p]
    ensures LinksUnique(config, after)
  {
    forall p ensures UniqueLinksOf(after, p) {
      assert UniqueLinksOf(s, p);
    }
    forall p <- after.phases | after.phases[p].Linking? ensures !Linked(after, p, after.phases[p].account) {
      var u := after.phases[p].account;
      if l :| l in after.links && IsActive(after, l, p, u) {
        assert IsActive(s, l, p, u);
      }
    }
  }

  lemma NewLinkIsUnique(config: Config, s: State, p: Person, l: LinkId)
    requires LinksUnique(config, s) && Enabled(config, s, CreateLink(p, l))
    ensures LinksUnique(config, Next(config, s, CreateLink(p, l)))
  {
    var after := Next(config, s, CreateLink(p, l));
    var u := PhaseOf(s, p).account;
    forall q ensures UniqueLinksOf(after, q) {
      assert UniqueLinksOf(s, q);
      if m :| m in s.links && s.links[m] == Link(p, u, true) {
        assert IsActive(s, m, p, u);
      }
    }
    forall q <- after.phases | after.phases[q].Linking? ensures !Linked(after, q, after.phases[q].account) {
      var v := after.phases[q].account;
      if m :| m in after.links && IsActive(after, m, q, v) {
        assert IsActive(s, m, q, v);
      }
    }
  }

  lemma CheckKeepsLinks(config: Config, s: State, p: Person)
    requires LinksUnique(config, s) && Enabled(config, s, CheckLink(p))
    ensures LinksUnique(config, Next(config, s, CheckLink(p)))
  {
    var after := Next(config, s, CheckLink(p));
    forall q, u ensures Linked(after, q, u) == Linked(s, q, u) {
      LinkedFrame(s, after, q, u);
    }
    hide Linked;
    forall q ensures UniqueLinksOf(after, q) {
      assert UniqueLinksOf(s, q);
    }
  }

  lemma OtherStepsLinkNothing(config: Config, s: State, step: Step)
    requires Enabled(config, s, step) && !step.CreateLink? && !step.CheckLink?
    ensures var after := Next(config, s, step);
      && after.links.Keys == s.links.Keys
      && (forall l <- s.links :: after.links[l] == s.links[l] || !after.links[l].active)
      && forall p <- after.phases :: after.phases[p].Linking? ==> p in s.phases && after.phases[p] == s.phases[p]
  {
    hide CprMatches, OwnPassing, UniqueLinksOf, Linked, LinkedAccounts, FoundByCpr, Passing;
    match step
    case Decide(_) =>
    case _ =>
  }

  lemma StepKeepsLinks(config: Config, s: State, step: Step)
    requires LinksUnique(config, s) && Enabled(config, s, step)
    ensures LinksUnique(config, Next(config, s, step))
  {
    hide LinksUnique, Next, Enabled;
    match step
    case CreateLink(p, l) => NewLinkIsUnique(config, s, p, l);
    case CheckLink(p) => CheckKeepsLinks(config, s, p);
    case _ =>
      OtherStepsLinkNothing(config, s, step);
      LinksFrame(config, s, Next(config, s, step));
  }

  lemma SteadyFrame(config: Config, s: State, after: State)
    requires SteadyIsOwn(config, s)
    requires after.accounts == s.accounts && after.creators == s.creators && after.steady == s.steady
    ensures SteadyIsOwn(config, after)
  {
    forall p, u | u in SteadyOf(after, p) ensures u in OwnPassing(config, after, p) {
      assert u in SteadyOf(s, p);
      assert u in OwnPassing(config, s, p);
    }
  }

  predicate ChangesAccounts(step: Step) {
    step.Create? || step.Modify? || step.Change? || step.Add? || step.Delete?
  }

  lemma BeginKeepsSteadyOwn(config: Config, s: State, q: Person)
    requires SteadyIsOwn(config, s) && Enabled(config, s, Begin(q))
    ensures SteadyIsOwn(config, Next(config, s, Begin(q)))
  {
    hide CprMatches, Linked, UniqueLinksOf, LinkedAccounts;
    var after := Next(config, s, Begin(q));
    forall p, u | u in SteadyOf(after, p) ensures u in OwnPassing(config, after, p) {
      assert p == q || u in SteadyOf(s, p);
      assert u in OwnPassing(config, s, p);
    }
  }

  lemma WriteKeepsSteadyOwn(config: Config, s: State, step: Step)
    requires IdsUsed(s) && SteadyIsOwn(config, s) && Enabled(config, s, step) && ChangesAccounts(step)
    ensures SteadyIsOwn(config, Next(config, s, step))
  {
    hide CprMatches, Linked, UniqueLinksOf, LinkedAccounts, FoundByCpr, Passing, Decision, IdsOfPhase;
    var after := Next(config, s, step);
    SteadyOfWrite(config, s, step);
    forall p, u | u in SteadyOf(after, p) ensures u in OwnPassing(config, after, p) {
      assert u in SteadyOf(s, p);
      assert u in OwnPassing(config, s, p);
    }
  }

  lemma StepKeepsSteadyOwn(config: Config, s: State, step: Step)
    requires IdsUsed(s) && SteadyIsOwn(config, s) && Enabled(config, s, step)
    ensures SteadyIsOwn(config, Next(config, s, step))
  {
    hide SteadyIsOwn, IdsUsed, Linked, LinkedAccounts, UniqueLinksOf, OwnPassing, FoundByCpr, Decision;
    if step.Begin? {
      BeginKeepsSteadyOwn(config, s, step.person);
    } else if ChangesAccounts(step) {
      WriteKeepsSteadyOwn(config, s, step);
    } else {
      SteadyFrame(config, s, Next(config, s, step));
    }
  }

  // ---------------------------------------------------------------------------------------------
  // No account is leaked
  // ---------------------------------------------------------------------------------------------

  lemma LinkedFrame(s: State, after: State, p: Person, u: Uuid)
    requires forall l :: IsActive(after, l, p, u) <==> IsActive(s, l, p, u)
    ensures Linked(after, p, u) == Linked(s, p, u)
  {
    if l :| l in s.links && IsActive(s, l, p, u) {
      assert IsActive(after, l, p, u);
    }
  }

  predicate IsLookup(step: Step) {
    step.Begin? || step.ReadAccount? || step.ReadCpr? || step.Terminate? || step.Decide?
  }

  lemma TerminateLeaksNone(config: Config, s: State, p: Person, l: LinkId)
    requires IdsUsed(s) && NoneLeaked(config, s) && Enabled(config, s, Terminate(p, l))
    ensures NoneLeaked(config, Next(config, s, Terminate(p, l)))
  {
    hide CprMatches;
    var after := Next(config, s, Terminate(p, l));
    assert IdsOfPhase(s, s.phases[p]);
    forall u <- after.accounts | u in after.creators
      ensures Findable(config, after, s.creators[u], u) || LinkPending(after, s.creators[u], u)
    {
      LinkedFrame(s, after, s.creators[u], u);
    }
  }

  /** A step of a lookup changes nothing but where the handler is. */
  lemma LookupChangesPhase(config: Config, s: State, step: Step)
    requires Enabled(config, s, step) && IsLookup(step) && !step.Terminate?
    ensures var after := Next(config, s, step);
      && after.links == s.links && after.accounts == s.accounts && after.cprs == s.cprs && after.creators == s.creators
      && forall p :: p == step.person || PhaseOf(after, p) == PhaseOf(s, p)
    ensures forall u :: !LinkPending(s, step.person, u)
  {
    hide CprMatches, UniqueLinksOf, OwnPassing, FoundByCpr, Passing, LinkedAccounts, Linked, Decision;
  }

  lemma SameStoresLeakNone(config: Config, s: State, after: State)
    requires NoneLeaked(config, s)
    requires after.links == s.links && after.accounts == s.accounts
    requires after.cprs == s.cprs && after.creators == s.creators
    requires forall p, u :: LinkPending(s, p, u) ==> LinkPending(after, p, u)
    ensures NoneLeaked(config, after)
  {
    hide CprMatches, LinkPending;
    forall p, u ensures Linked(after, p, u) == Linked(s, p, u) {
      LinkedFrame(s, after, p, u);
    }
    hide Linked;
    assert forall p :: CprOf(after, p) == CprOf(s, p);
  }

  lemma LookupLeaksNone(config: Config, s: State, step: Step)
    requires IdsUsed(s) && NoneLeaked(config, s) && Enabled(config, s, step) && IsLookup(step)
    ensures NoneLeaked(config, Next(config, s, step))
  {
    hide NoneLeaked, IdsUsed, Next, Enabled;
    if step.Terminate? {
      TerminateLeaksNone(config, s, step.person, step.link);
    } else {
      LookupChangesPhase(config, s, step);
      SameStoresLeakNone(config, s, Next(config, s, step));
    }
  }

  lemma LinksStay(config: Config, s: State, step: Step)
    requires Enabled(config, s, step) && ChangesAccounts(step)
    ensures forall p, u :: Linked(Next(config, s, step), p, u) == Linked(s, p, u)
  {
    hide CprMatches, UniqueLinksOf, LinkedAccounts, OwnPassing, FoundByCpr, Passing, Decision;
    assert Next(config, s, step).links == s.links;
    forall p, u ensures Linked(Next(config, s, step), p, u) == Linked(s, p, u) {
      LinkedFrame(s, Next(config, s, step), p, u);
    }
  }

  lemma AdditionLeaksNone(config: Config, s: State, step: Step)
    requires IdsUsed(s) && NoneLeaked(config, s) && Enabled(config, s, step)
    requires step.Create? || step.Add? || step.Delete?
    ensures NoneLeaked(config, Next(config, s, step))
  {
    hide CprMatches, UniqueLinksOf, LinkedAccounts, OwnPassing, FoundByCpr, Passing, Decision, IdsOfPhase;
    LinksStay(config, s, step);
    hide Linked;
    match step
    case Create(_, _, _) =>
    case Add(_, _) =>
    case Delete(_) =>
  }

  lemma ChangeLeaksNoneIff(config: Config, s: State, step: Step)
    requires NoneLeaked(config, s) && Enabled(config, s, step)
    requires step.Modify? || step.Change?
    ensures NoneLeaked(config, Next(config, s, step)) <==> Allowed(config, s, step)
  {
    hide CprMatches, UniqueLinksOf, LinkedAccounts, OwnPassing, FoundByCpr, Passing, Decision;
    LinksStay(config, s, step);
    hide Linked;
    match step
    case Modify(_, _) =>
    case Change(_, _) =>
  }

  lemma CheckLeaksNoneIff(config: Config, s: State, step: Step)
    requires LinksUnique(config, s) && NoneLeaked(config, s) && Enabled(config, s, step)
    requires step.CheckLink? || step.CreateLink?
    ensures NoneLeaked(config, Next(config, s, step)) <==> Allowed(config, s, step)
  {
    hide CprMatches, UniqueLinksOf;
    match step
    case CheckLink(_) =>
    case CreateLink(p, l) =>
      var after := Next(config, s, step);
      assert IsActive(after, l, p, PhaseOf(s, p).account);
      forall q, u | Linked(s, q, u) ensures Linked(after, q, u) {
        var m :| m in s.links && IsActive(s, m, q, u);
        assert IsActive(after, m, q, u);
      }
  }

  lemma InterruptionLeaksNoneIff(config: Config, s: State, step: Step)
    requires NoneLeaked(config, s) && Enabled(config, s, step)
    requires step.Fail? || step.Crash?
    ensures NoneLeaked(config, Next(config, s, step)) <==> Allowed(config, s, step)
  {
    hide CprMatches;
    match step
    case Fail(_) =>
    case Crash =>
  }

  lemma EndedLink(config: Config, s: State, l: LinkId, p: Person, u: Uuid)
    requires LinksUnique(config, s) && Enabled(config, s, EndLink(l))
    ensures Linked(Next(config, s, EndLink(l)), p, u) <==> Linked(s, p, u) && !IsActive(s, l, p, u)
  {
    var after := Next(config, s, EndLink(l));
    if m :| m in s.links && IsActive(s, m, p, u) && m != l {
      assert IsActive(after, m, p, u);
      assert UniqueLinksOf(s, p);
    }
    if m :| m in after.links && IsActive(after, m, p, u) {
      assert IsActive(s, m, p, u);
    }
  }

  lemma EnvironmentLeaksNoneIff(config: Config, s: State, step: Step)
    requires LinksUnique(config, s) && NoneLeaked(config, s) && Enabled(config, s, step)
    requires step.SetCpr? || step.EndLink?
    ensures NoneLeaked(config, Next(config, s, step)) <==> Allowed(config, s, step)
  {
    hide CprMatches;
    match step
    case SetCpr(_, _) =>
    case EndLink(l) =>
      forall q, u ensures Linked(Next(config, s, step), q, u) <==> Linked(s, q, u) && !IsActive(s, l, q, u) {
        EndedLink(config, s, l, q, u);
      }
  }

  /** A step leaks an account exactly when it is not one of the allowed ones. */
  lemma NoneLeakedIff(config: Config, s: State, step: Step)
    requires IdsUsed(s) && LinksUnique(config, s) && NoneLeaked(config, s) && Enabled(config, s, step)
    ensures NoneLeaked(config, Next(config, s, step)) <==> Allowed(config, s, step)
  {
    hide IdsUsed, LinksUnique, NoneLeaked;
    if IsLookup(step) {
      LookupLeaksNone(config, s, step);
    } else if step.Modify? || step.Change? {
      ChangeLeaksNoneIff(config, s, step);
    } else if ChangesAccounts(step) {
      AdditionLeaksNone(config, s, step);
    } else if step.CheckLink? || step.CreateLink? {
      CheckLeaksNoneIff(config, s, step);
    } else if step.Fail? || step.Crash? {
      InterruptionLeaksNoneIff(config, s, step);
    } else {
      EnvironmentLeaksNoneIff(config, s, step);
    }
  }

  // ---------------------------------------------------------------------------------------------
  // No lookup misses an account that exists and passes the filter throughout
  // ---------------------------------------------------------------------------------------------

  lemma LinkedIsListed(s: State, p: Person, u: Uuid)
    ensures Linked(s, p, u) <==> u in LinkedAccounts(s, p)
  {
    if l :| l in s.links && IsActive(s, l, p, u) {
    }
    if l :| l in s.links && s.links[l].person == p && s.links[l].active && s.links[l].account == u {
      assert IsActive(s, l, p, u);
    }
  }

  lemma LookupFrame(config: Config, s: State, after: State, p: Person)
    requires p in s.phases && p in after.phases && after.phases[p] == s.phases[p] && s.phases[p].Finding?
    requires SteadyFound(config, s, p, s.phases[p])
    requires SteadyOf(after, p) <= SteadyOf(s, p)
    requires LinkedAccounts(after, p) <= LinkedAccounts(s, p)
    requires IdsUsed(after) && SteadyIsOwn(config, after) && NoneLeaked(config, after)
    ensures SteadyFound(config, after, p, after.phases[p])
  {
    hide CprMatches;
    var phase := s.phases[p];
    forall u <- SteadyOf(after, p) | u !in phase.todo && u !in phase.found
      ensures !phase.cprRead && u in after.accounts && CprMatches(CprOf(after, p), after.accounts[u])
    {
      assert u in OwnPassing(config, after, p);
      assert IdsOfPhase(after, phase);
      LinkedIsListed(after, p, u);
    }
  }

  lemma OthersShrink(config: Config, s: State, step: Step, p: Person)
    requires IdsUsed(s) && Enabled(config, s, step)
    requires p in s.phases && s.phases[p].Finding?
    ensures SteadyOf(Next(config, s, step), p) <= SteadyOf(s, p)
    ensures LinkedAccounts(Next(config, s, step), p) <= LinkedAccounts(s, p)
  {
    hide CprMatches, Linked, UniqueLinksOf, OwnPassing, FoundByCpr, Passing, Decision, IdsOfPhase;
    match step
    case CreateLink(q, _) => assert q != p;
    case Begin(q) => assert q != p;
    case _ =>
  }

  lemma BeginFindsSteady(config: Config, s: State, p: Person)
    requires NoneLeaked(config, s) && Enabled(config, s, Begin(p))
    ensures var after := Next(config, s, Begin(p)); SteadyFound(config, after, p, after.phases[p])
  {
    hide CprMatches;
    var after := Next(config, s, Begin(p));
    assert SteadyOf(after, p) == OwnPassing(config, s, p);
    assert LinkedAccounts(after, p) == LinkedAccounts(s, p);
    forall u <- SteadyOf(after, p) ensures u in after.phases[p].todo || CprMatches(CprOf(after, p), after.accounts[u]) {
      LinkedIsListed(s, p, u);
    }
  }

  lemma ReadAccountFindsSteady(config: Config, s: State, p: Person, v: Uuid)
    requires SteadyIsOwn(config, s) && LookupsComplete(config, s) && Enabled(config, s, ReadAccount(p, v))
    ensures var after := Next(config, s, ReadAccount(p, v));
      after.phases[p].Finding? && SteadyFound(config, after, p, after.phases[p])
  {
    hide CprMatches, Linked, UniqueLinksOf, Passing, Decision, FoundByCpr;
    var after := Next(config, s, ReadAccount(p, v));
    assert LinkedAccounts(after, p) == LinkedAccounts(s, p);
    hide LinkedAccounts;
    assert SteadyFound(config, s, p, s.phases[p]);
    forall u <- SteadyOf(after, p) ensures u in OwnPassing(config, s, p) {
      assert u in SteadyOf(s, p);
    }
  }

  lemma ReadCprFindsSteady(config: Config, s: State, p: Person)
    requires SteadyIsOwn(config, s) && LookupsComplete(config, s) && Enabled(config, s, ReadCpr(p))
    ensures var after := Next(config, s, ReadCpr(p));
      after.phases[p].Finding? && SteadyFound(config, after, p, after.phases[p])
  {
    hide CprMatches, Linked, UniqueLinksOf, Passing, Decision;
    var after := Next(config, s, ReadCpr(p));
    assert LinkedAccounts(after, p) == LinkedAccounts(s, p);
    hide LinkedAccounts;
    assert SteadyFound(config, s, p, s.phases[p]);
    forall u <- SteadyOf(after, p) ensures u in OwnPassing(config, s, p) {
      assert u in SteadyOf(s, p);
    }
  }

  lemma DecideSeesSteady(config: Config, s: State, p: Person)
    requires LookupsComplete(config, s) && Enabled(config, s, Decide(p))
    ensures Decision(config, s.phases[p].found).Creating? ==> SteadyOf(s, p) == {}
  {
    var found := s.phases[p].found;
    assert SteadyFound(config, s, p, s.phases[p]);
    if u :| u in SteadyOf(s, p) {
      assert u in Passing(config, found);
    }
  }

  lemma LookupOfPerson(config: Config, s: State, step: Step, p: Person)
    requires IdsUsed(s) && SteadyIsOwn(config, s) && LookupsComplete(config, s) && NoneLeaked(config, s)
    requires Enabled(config, s, step)
    requires var after := Next(config, s, step);
      IdsUsed(after) && SteadyIsOwn(config, after) && NoneLeaked(config, after) && PhaseOf(after, p).Finding?
    ensures var after := Next(config, s, step); SteadyFound(config, after, p, after.phases[p])
  {
    hide SteadyFound, NoneLeaked, IdsUsed, SteadyIsOwn, LinkedAccounts, CprMatches, Decision;
    var after := Next(config, s, step);
    if step == Begin(p) {
      BeginFindsSteady(config, s, p);
    } else if step.ReadAccount? && step.person == p {
      ReadAccountFindsSteady(config, s, p, step.account);
    } else if step == ReadCpr(p) {
      ReadCprFindsSteady(config, s, p);
    } else {
      SamePhase(config, s, step, p);
      OthersShrink(config, s, step, p);
      LookupFrame(config, s, after, p);
    }
  }

  /** Only the handler of a person starts or continues the lookup for that person. */
  lemma SamePhase(config: Config, s: State, step: Step, p: Person)
    requires Enabled(config, s, step) && PhaseOf(Next(config, s, step), p).Finding?
    requires step != Begin(p) && !((step.ReadAccount? || step.ReadCpr?) && step.person == p)
    ensures p in s.phases && Next(config, s, step).phases[p] == s.phases[p]
  {
  }

  lemma CreationOfPerson(config: Config, s: State, step: Step, p: Person)
    requires LookupsComplete(config, s) && IdsUsed(s) && Enabled(config, s, step)
    requires PhaseOf(Next(config, s, step), p).Creating?
    ensures SteadyOf(Next(config, s, step), p) == {}
  {
    hide SteadyFound, CprMatches, Passing;
    if step == Decide(p) {
      DecideSeesSteady(config, s, p);
    }
  }

  lemma StepKeepsLookups(config: Config, s: State, step: Step)
    requires Invariant(config, s) && Enabled(config, s, step) && Allowed(config, s, step)
    ensures LookupsComplete(config, Next(config, s, step))
  {
    var after := Next(config, s, step);
    assert IdsUsed(after) && SteadyIsOwn(config, after) && NoneLeaked(config, after) by {
      StepKeepsIds(config, s, step);
      StepKeepsSteadyOwn(config, s, step);
      NoneLeakedIff(config, s, step);
    }
    forall p <- after.phases | after.phases[p].Finding? ensures SteadyFound(config, after, p, after.phases[p]) {
      LookupOfPerson(config, s, step, p);
    }
    forall p <- after.phases | after.phases[p].Creating? ensures SteadyOf(after, p) == {} {
      CreationOfPerson(config, s, step, p);
    }
  }

  // ---------------------------------------------------------------------------------------------
  // Whole runs
  // ---------------------------------------------------------------------------------------------

  ghost predicate Possible(config: Config, s: State, steps: seq<Step>)
    decreases |steps|
  {
    steps == [] || (Enabled(config, s, steps[0]) && Possible(config, Next(config, s, steps[0]), steps[1..]))
  }

  ghost predicate AllAllowed(config: Config, s: State, steps: seq<Step>)
    requires Possible(config, s, steps)
    decreases |steps|
  {
    steps == [] || (Allowed(config, s, steps[0]) && AllAllowed(config, Next(config, s, steps[0]), steps[1..]))
  }

  ghost function After(config: Config, s: State, steps: seq<Step>): State
    requires Possible(config, s, steps)
    decreases |steps|
  {
    if steps == [] then s else After(config, Next(config, s, steps[0]), steps[1..])
  }

  /** The invariant survives exactly the allowed steps. */
  lemma StepKeepsInvariantIff(config: Config, s: State, step: Step)
    requires Invariant(config, s) && Enabled(config, s, step)
    ensures Invariant(config, Next(config, s, step)) <==> Allowed(config, s, step)
  {
    hide IdsUsed, LinksUnique, SteadyIsOwn, LookupsComplete, NoneLeaked, Allowed, Next, Enabled;
    StepKeepsIds(config, s, step);
    StepKeepsLinks(config, s, step);
    StepKeepsSteadyOwn(config, s, step);
    NoneLeakedIff(config, s, step);
    if Allowed(config, s, step) {
      StepKeepsLookups(config, s, step);
    }
  }

  /** Nobody is being handled, and nothing has been linked or created yet; the directory holds anything. */
  ghost predicate Initial(s: State) {
    && s.phases == map[] && s.steady == map[] && s.creators == map[] && s.links == map[]
    && s.accounts.Keys <= s.used
  }

  lemma InitialIsFine(config: Config, s: State)
    requires Initial(s)
    ensures Invariant(config, s) && OnePassing(config, s) && Tagged(s)
  {
  }

  lemma {:induction false} RunKeepsInvariant(config: Config, s: State, steps: seq<Step>)
    requires Invariant(config, s) && Possible(config, s, steps) && AllAllowed(config, s, steps)
    ensures Invariant(config, After(config, s, steps))
    decreases |steps|
  {
    hide Invariant, Allowed, Next, Enabled;
    if steps != [] {
      StepKeepsInvariantIff(config, s, steps[0]);
      RunKeepsInvariant(config, Next(config, s, steps[0]), steps[1..]);
    }
  }

  /** Whatever fails or crashes, the links of a person never name an account twice, so reading them never fails. */
  lemma {:induction false} LookupNeverRaises(config: Config, s: State, steps: seq<Step>, p: Person)
    requires LinksUnique(config, s) && Possible(config, s, steps)
    ensures LinksUnique(config, After(config, s, steps))
    ensures Enabled(config, After(config, s, steps), Begin(p)) <==> PhaseOf(After(config, s, steps), p) == Idle
    decreases |steps|
  {
    hide Next;
    if steps != [] {
      StepKeepsLinks(config, s, steps[0]);
      LookupNeverRaises(config, Next(config, s, steps[0]), steps[1..], p);
    } else {
      assert UniqueLinksOf(s, p);
    }
  }

  /** Whether the account was created for the person and exists and passes the filter in every state of the run. */
  ghost predicate Throughout(config: Config, s: State, steps: seq<Step>, p: Person, u: Uuid)
    requires Possible(config, s, steps)
    decreases |steps|
  {
    && u in OwnPassing(config, s, p)
    && (steps == [] || Throughout(config, Next(config, s, steps[0]), steps[1..], p, u))
  }

  function PassingIds(config: Config, accounts: map<Uuid, Account>): set<Uuid> {
    set u <- accounts | config.passes(accounts[u])
  }

  lemma WithAccountsSteady(config: Config, s: State, accounts: map<Uuid, Account>, p: Person)
    ensures SteadyOf(WithAccounts(config, s, accounts), p) == SteadyOf(s, p) * PassingIds(config, accounts)
  {
  }

  lemma SteadyPass(config: Config, s: State, p: Person)
    requires SteadyIsOwn(config, s)
    ensures SteadyOf(s, p) == SteadyOf(s, p) * PassingIds(config, s.accounts)
  {
    assert forall u <- SteadyOf(s, p) :: u in OwnPassing(config, s, p);
  }

  lemma SteadyChange(config: Config, s: State, step: Step, p: Person)
    requires SteadyIsOwn(config, s) && Enabled(config, s, step) && step != Begin(p)
    ensures SteadyOf(Next(config, s, step), p) == SteadyOf(s, p) * PassingIds(config, Next(config, s, step).accounts)
  {
    hide CprMatches, UniqueLinksOf, Linked, LinkedAccounts, FoundByCpr, Passing, Decision, PassingIds, OwnPassing;
    hide SteadyIsOwn;
    SteadyPass(config, s, p);
    WithAccountsSteady(config, s, Next(config, s, step).accounts, p);
    if ChangesAccounts(step) {
      SteadyOfWrite(config, s, step);
    }
  }

  lemma SteadyOfWrite(config: Config, s: State, step: Step)
    requires Enabled(config, s, step) && ChangesAccounts(step)
    ensures Next(config, s, step).steady == WithAccounts(config, s, Next(config, s, step).accounts).steady
  {
    hide CprMatches, UniqueLinksOf, Linked, LinkedAccounts, FoundByCpr, Passing, Decision, OwnPassing;
  }

  lemma SteadyAfterStep(config: Config, s: State, step: Step, p: Person, u: Uuid)
    requires IdsUsed(s) && SteadyIsOwn(config, s) && Enabled(config, s, step) && step != Begin(p)
    ensures u in SteadyOf(Next(config, s, step), p) <==>
      u in SteadyOf(s, p) && u in OwnPassing(config, Next(config, s, step), p)
  {
    hide Enabled, Next, IdsUsed;
    SteadyChange(config, s, step, p);
    StepKeepsSteadyOwn(config, s, step);
  }

  lemma {:induction false} SteadyIs(config: Config, s: State, steps: seq<Step>, p: Person, u: Uuid)
    requires IdsUsed(s) && SteadyIsOwn(config, s) && Possible(config, s, steps) && Begin(p) !in steps
    ensures u in SteadyOf(After(config, s, steps), p) <==> u in SteadyOf(s, p) && Throughout(config, s, steps, p, u)
    decreases |steps|
  {
    hide IdsUsed, Next, Enabled, OwnPassing;
    if steps != [] {
      StepKeepsIds(config, s, steps[0]);
      StepKeepsSteadyOwn(config, s, steps[0]);
      SteadyAfterStep(config, s, steps[0], p, u);
      SteadyIs(config, Next(config, s, steps[0]), steps[1..], p, u);
    }
  }

  lemma CreationIsLonely(config: Config, s: State, p: Person, v: Uuid, a: Account)
    requires LookupsComplete(config, s) && Enabled(config, s, Create(p, v, a))
    ensures SteadyOf(s, p) == {}
  {
  }

  /** No second account: if a handling ends in creating an account, every earlier account of the
      person was missing or did not pass the filter at some moment of that handling. */
  lemma NoSecondAccount(config: Config, s: State, p: Person, steps: seq<Step>, v: Uuid, a: Account, u: Uuid)
    requires Invariant(config, s) && Enabled(config, s, Begin(p)) && Begin(p) !in steps
    requires var begun := Next(config, s, Begin(p));
      && Possible(config, begun, steps) && AllAllowed(config, begun, steps)
      && Enabled(config, After(config, begun, steps), Create(p, v, a))
    ensures !Throughout(config, Next(config, s, Begin(p)), steps, p, u)
  {
    hide IdsUsed, LinksUnique, SteadyIsOwn, LookupsComplete, NoneLeaked, Possible, AllAllowed, After, Throughout;
    var begun := Next(config, s, Begin(p));
    StepKeepsInvariantIff(config, s, Begin(p));
    RunKeepsInvariant(config, begun, steps);
    CreationIsLonely(config, After(config, begun, steps), p, v, a);
    SteadyIs(config, begun, steps, p, u);
    assert SteadyOf(begun, p) == OwnPassing(config, s, p) == OwnPassing(config, begun, p);
    assert Throughout(config, begun, steps, p, u) ==> u in OwnPassing(config, begun, p) by {
      ThroughoutFirst(config, begun, steps, p, u);
    }
  }

  lemma ThroughoutFirst(config: Config, s: State, steps: seq<Step>, p: Person, u: Uuid)
    requires Possible(config, s, steps)
    ensures Throughout(config, s, steps, p, u) ==> u in OwnPassing(config, s, p)
  {
  }

  /** Whether the account, whoever created it, exists, passes the filter and is bound to be found. */
  predicate IsCorrelated(config: Config, s: State, p: Person, u: Uuid) {
    u in s.accounts && config.passes(s.accounts[u]) && Findable(config, s, p, u)
  }

  /** Whether the handling under way, if any, cannot overlook the account. */
  ghost predicate Sees(config: Config, s: State, p: Person, u: Uuid) {
    match PhaseOf(s, p)
    case Finding(todo, found, gone, cprRead) =>
      && (config.hasItSystem ==> LinkedAccounts(s, p) <= todo + found.Keys + gone)
      && (u in found ==> config.passes(found[u]))
      && (u in todo || u in found || (!cprRead && u in s.accounts && CprMatches(CprOf(s, p), s.accounts[u])))
    case Creating => false
    case _ => true
  }

  lemma BeginSees(config: Config, s: State, p: Person, u: Uuid)
    requires Enabled(config, s, Begin(p)) && IsCorrelated(config, s, p, u)
    ensures Sees(config, Next(config, s, Begin(p)), p, u)
  {
    hide CprMatches, UniqueLinksOf;
    LinkedIsListed(s, p, u);
    hide Linked;
    assert LinkedAccounts(Next(config, s, Begin(p)), p) == LinkedAccounts(s, p);
  }

  lemma ReadAccountSees(config: Config, s: State, p: Person, v: Uuid, u: Uuid)
    requires Enabled(config, s, ReadAccount(p, v)) && IsCorrelated(config, s, p, u) && Sees(config, s, p, u)
    ensures Sees(config, Next(config, s, ReadAccount(p, v)), p, u)
  {
    hide CprMatches, UniqueLinksOf, Linked, Findable, FoundByCpr, Passing, Decision, OwnPassing;
    assert LinkedAccounts(Next(config, s, ReadAccount(p, v)), p) == LinkedAccounts(s, p);
    hide LinkedAccounts;
  }

  lemma ReadCprSees(config: Config, s: State, p: Person, u: Uuid)
    requires Enabled(config, s, ReadCpr(p)) && IsCorrelated(config, s, p, u) && Sees(config, s, p, u)
    ensures Sees(config, Next(config, s, ReadCpr(p)), p, u)
  {
    hide CprMatches, UniqueLinksOf, Linked, Findable;
    assert LinkedAccounts(Next(config, s, ReadCpr(p)), p) == LinkedAccounts(s, p);
    hide LinkedAccounts;
  }

  lemma DecideSees(config: Config, s: State, p: Person, u: Uuid)
    requires Enabled(config, s, Decide(p)) && Sees(config, s, p, u)
    ensures Sees(config, Next(config, s, Decide(p)), p, u)
  {
    hide CprMatches, UniqueLinksOf, Linked, LinkedAccounts;
    assert u in Passing(config, s.phases[p].found);
  }

  lemma OtherStepSees(config: Config, s: State, after: State, p: Person, u: Uuid)
    requires PhaseOf(s, p).Finding? && PhaseOf(after, p) == PhaseOf(s, p) && Sees(config, s, p, u)
    requires IdsUsed(after) && IsCorrelated(config, after, p, u) && LinkedAccounts(after, p) <= LinkedAccounts(s, p)
    ensures Sees(config, after, p, u)
  {
    hide CprMatches;
    LinkedIsListed(after, p, u);
    hide Linked, LinkedAccounts;
    assert IdsOfPhase(after, after.phases[p]);
  }

  lemma StepSees(config: Config, s: State, step: Step, p: Person, u: Uuid)
    requires IdsUsed(s) && Enabled(config, s, step) && Sees(config, s, p, u)
    requires IsCorrelated(config, s, p, u) && IsCorrelated(config, Next(config, s, step), p, u)
    ensures Sees(config, Next(config, s, step), p, u)
  {
    var after := Next(config, s, step);
    hide IsCorrelated, CprMatches, Linked, LinkedAccounts, UniqueLinksOf, Findable;
    if step == Begin(p) {
      BeginSees(config, s, p, u);
    } else if step == Decide(p) {
      DecideSees(config, s, p, u);
    } else if step.ReadAccount? && step.person == p {
      ReadAccountSees(config, s, p, step.account, u);
    } else if step == ReadCpr(p) {
      ReadCprSees(config, s, p, u);
    } else if PhaseOf(after, p).Finding? {
      SamePhase(config, s, step, p);
      OthersShrink(config, s, step, p);
      StepKeepsIds(config, s, step);
      OtherStepSees(config, s, after, p, u);
    } else {
      OnlyDecideCreates(config, s, step, p);
    }
  }

  lemma OnlyDecideCreates(config: Config, s: State, step: Step, p: Person)
    requires Enabled(config, s, step) && step != Decide(p)
    ensures PhaseOf(Next(config, s, step), p).Creating? ==> PhaseOf(s, p).Creating?
  {
    hide CprMatches, Linked, LinkedAccounts, UniqueLinksOf, Decision, OwnPassing;
  }

  ghost predicate AlwaysCorrelated(config: Config, s: State, steps: seq<Step>, p: Person, u: Uuid)
    requires Possible(config, s, steps)
    decreases |steps|
  {
    && IsCorrelated(config, s, p, u)
    && (steps == [] || AlwaysCorrelated(config, Next(config, s, steps[0]), steps[1..], p, u))
  }

  /** No account is created for a person while any account, whoever created it, exists, passes the filter
      and can be found by a link or by the CPR number; whatever else is done or fails meanwhile. */
  lemma {:induction false} NoAccountBesideCorrelated(config: Config, s: State, steps: seq<Step>, p: Person, u: Uuid,
                                                     v: Uuid, a: Account)
    requires IdsUsed(s) && Sees(config, s, p, u) && Possible(config, s, steps)
      && AlwaysCorrelated(config, s, steps, p, u)
    ensures !Enabled(config, After(config, s, steps), Create(p, v, a))
    decreases |steps|
  {
    hide IdsUsed, Next, IsCorrelated;
    if steps != [] {
      assert IsCorrelated(config, Next(config, s, steps[0]), p, u);
      StepKeepsIds(config, s, steps[0]);
      StepSees(config, s, steps[0], p, u);
      NoAccountBesideCorrelated(config, Next(config, s, steps[0]), steps[1..], p, u, v, a);
    }
  }

  // ---------------------------------------------------------------------------------------------
  // At most one account per person
  // ---------------------------------------------------------------------------------------------

  predicate NotRevived(config: Config, s: State, u: Uuid, a: Account) {
    u in s.accounts && u in s.creators && config.passes(a) ==> config.passes(s.accounts[u])
  }

  /** The step does not make an account created earlier pass the filter again. */
  predicate NoRevival(config: Config, s: State, step: Step)
    requires Enabled(config, s, step)
  {
    match step
    case Change(u, a) => NotRevived(config, s, u, a)
    case Modify(p, a) => NotRevived(config, s, PhaseOf(s, p).account, a)
    case _ => true
  }

  ghost predicate OnePassing(config: Config, s: State) {
    && (forall p, u, v :: u in OwnPassing(config, s, p) && v in OwnPassing(config, s, p) ==> u == v)
    && (forall p :: PhaseOf(s, p).Finding? || PhaseOf(s, p).Creating? ==> OwnPassing(config, s, p) <= SteadyOf(s, p))
  }

  /** No step but a creation makes an account of the person pass. */
  lemma OwnPassingShrinks(config: Config, s: State, step: Step, p: Person)
    requires IdsUsed(s) && Enabled(config, s, step) && NoRevival(config, s, step)
    requires !(step.Create? && step.person == p)
    ensures OwnPassing(config, Next(config, s, step), p) <= OwnPassing(config, s, p)
  {
    hide CprMatches, Linked, UniqueLinksOf, LinkedAccounts;
    match step
    case Create(_, _, _) =>
    case Modify(_, _) =>
    case Change(_, _) =>
    case Add(_, _) =>
    case Delete(_) =>
    case _ =>
  }

  lemma SearchingStays(config: Config, s: State, step: Step, p: Person)
    requires Enabled(config, s, step)
    requires var phase := PhaseOf(Next(config, s, step), p); phase.Finding? || phase.Creating?
    ensures step == Begin(p) || PhaseOf(s, p).Finding? || PhaseOf(s, p).Creating?
    ensures !(step.Create? && step.person == p)
  {
    hide CprMatches, Linked, UniqueLinksOf, LinkedAccounts;
  }

  lemma StepKeepsOnePassing(config: Config, s: State, step: Step)
    requires Invariant(config, s) && OnePassing(config, s)
    requires Enabled(config, s, step) && NoRevival(config, s, step)
    ensures OnePassing(config, Next(config, s, step))
  {
    hide Next, Enabled, OwnPassing, IdsUsed, LinksUnique, SteadyIsOwn, LookupsComplete, NoneLeaked;
    var after := Next(config, s, step);
    forall p, u, v | u in OwnPassing(config, after, p) && v in OwnPassing(config, after, p) ensures u == v {
      if step.Create? && step.person == p {
        NewAccountAlone(config, s, p, step.account, step.value);
      } else {
        OwnPassingShrinks(config, s, step, p);
      }
    }
    forall p | PhaseOf(after, p).Finding? || PhaseOf(after, p).Creating?
      ensures OwnPassing(config, after, p) <= SteadyOf(after, p)
    {
      SearchingStays(config, s, step, p);
      OwnPassingShrinks(config, s, step, p);
      if step == Begin(p) {
        assert SteadyOf(after, p) == OwnPassing(config, s, p) by {
          BeginRecords(config, s, p);
        }
      } else {
        forall u <- OwnPassing(config, after, p) ensures u in SteadyOf(after, p) {
          SteadyAfterStep(config, s, step, p, u);
        }
      }
    }
  }

  lemma BeginRecords(config: Config, s: State, p: Person)
    requires Enabled(config, s, Begin(p))
    ensures SteadyOf(Next(config, s, Begin(p)), p) == OwnPassing(config, s, p)
  {
  }

  lemma NewAccountAlone(config: Config, s: State, p: Person, u: Uuid, a: Account)
    requires Invariant(config, s) && OnePassing(config, s) && Enabled(config, s, Create(p, u, a))
    ensures OwnPassing(config, Next(config, s, Create(p, u, a)), p) <= {u}
  {
    hide IdsUsed, LinksUnique, SteadyIsOwn, LookupsComplete, NoneLeaked;
    CreationIsLonely(config, s, p, u, a);
    assert OwnPassing(config, s, p) == {};
    var after := Next(config, s, Create(p, u, a));
    forall v <- OwnPassing(config, after, p) ensures v == u {
      assert v != u ==> v in OwnPassing(config, s, p);
    }
  }

  ghost predicate NeverRevived(config: Config, s: State, steps: seq<Step>)
    requires Possible(config, s, steps)
    decreases |steps|
  {
    steps == [] || (NoRevival(config, s, steps[0]) && NeverRevived(config, Next(config, s, steps[0]), steps[1..]))
  }

  /** Handling any persons in any interleaving never leaves a person with two accounts that pass the filter. */
  lemma {:induction false} AtMostOneAccount(config: Config, s: State, steps: seq<Step>, p: Person)
    requires Invariant(config, s) && OnePassing(config, s) && Possible(config, s, steps)
    requires AllAllowed(config, s, steps) && NeverRevived(config, s, steps)
    ensures |OwnPassing(config, After(config, s, steps), p)| <= 1
    decreases |steps|
  {
    hide Invariant, Allowed, Next, Enabled, NoRevival, OwnPassing;
    if steps == [] {
      AtMostOneElement(OwnPassing(config, s, p));
    } else {
      hide OnePassing;
      StepKeepsInvariantIff(config, s, steps[0]);
      StepKeepsOnePassing(config, s, steps[0]);
      AtMostOneAccount(config, Next(config, s, steps[0]), steps[1..], p);
    }
  }

  lemma AtMostOneElement<T>(xs: set<T>)
    requires forall x, y :: x in xs && y in xs ==> x == y
    ensures |xs| <= 1
  {
    if x :| x in xs {
      assert xs == {x};
    }
  }

  // ---------------------------------------------------------------------------------------------
  // With the CPR number in the account, crashes do no harm
  // ---------------------------------------------------------------------------------------------

  /** Every account created for a person carries that person's CPR number. */
  ghost predicate Tagged(s: State) {
    forall u <- s.accounts :: u in s.creators ==> CprMatches(CprOf(s, s.creators[u]), s.accounts[u])
  }

  predicate KeepsTag(s: State, u: Uuid, a: Account) {
    u in s.creators ==> CprMatches(CprOf(s, s.creators[u]), a)
  }

  /** Every write keeps the CPR number in the account, and it does not change under an account. */
  ghost predicate Tags(config: Config, s: State, step: Step)
    requires Enabled(config, s, step)
  {
    match step
    case Create(p, _, a) => CprMatches(CprOf(s, p), a)
    case Modify(p, a) => KeepsTag(s, PhaseOf(s, p).account, a)
    case Change(u, a) => KeepsTag(s, u, a)
    case SetCpr(p, cpr) => forall u <- s.accounts :: u in s.creators && s.creators[u] == p ==>
      CprMatches(cpr, s.accounts[u])
    case _ => true
  }

  lemma TaggedUpdateIff(s: State, after: State, u: Uuid, a: Account)
    requires Tagged(s) && after.cprs == s.cprs && after.accounts == s.accounts[u := a]
    requires forall v <- s.accounts :: v != u ==> (v in after.creators <==> v in s.creators)
    requires forall v <- s.accounts :: v != u && v in s.creators ==> after.creators[v] == s.creators[v]
    ensures Tagged(after) <==> KeepsTag(after, u, a)
  {
    hide CprMatches;
    assert forall p :: CprOf(after, p) == CprOf(s, p);
  }

  lemma WriteKeepsTaggedIff(config: Config, s: State, step: Step)
    requires IdsUsed(s) && Tagged(s) && Enabled(config, s, step)
    requires step.Create? || step.Modify? || step.Change? || step.Add?
    ensures Tagged(Next(config, s, step)) <==> Tags(config, s, step)
  {
    hide CprMatches, Linked, UniqueLinksOf, LinkedAccounts, OwnPassing, Passing, Decision, Tagged;
    var after := Next(config, s, step);
    match step
    case Create(_, u, a) => TaggedUpdateIff(s, after, u, a);
    case Modify(p, a) => TaggedUpdateIff(s, after, PhaseOf(s, p).account, a);
    case Change(u, a) => TaggedUpdateIff(s, after, u, a);
    case Add(u, a) => TaggedUpdateIff(s, after, u, a);
  }

  lemma CprKeepsTaggedIff(config: Config, s: State, p: Person, cpr: Option<Cpr>)
    requires Tagged(s)
    ensures Tagged(Next(config, s, SetCpr(p, cpr))) <==> Tags(config, s, SetCpr(p, cpr))
  {
    hide CprMatches;
    var after := Next(config, s, SetCpr(p, cpr));
    assert forall q :: CprOf(after, q) == if q == p then cpr else CprOf(s, q);
  }

  lemma TaggedFrame(s: State, after: State)
    requires Tagged(s) && after.cprs == s.cprs && after.creators == s.creators
    requires forall u <- after.accounts :: u in s.accounts && after.accounts[u] == s.accounts[u]
    ensures Tagged(after)
  {
    hide CprMatches;
    assert forall p :: CprOf(after, p) == CprOf(s, p);
  }

  /** Accounts stay tagged exactly as long as every write puts the number of the person into them. */
  lemma StepKeepsTaggedIff(config: Config, s: State, step: Step)
    requires IdsUsed(s) && Tagged(s) && Enabled(config, s, step)
    ensures Tagged(Next(config, s, step)) <==> Tags(config, s, step)
  {
    hide CprMatches, Linked, UniqueLinksOf, LinkedAccounts, OwnPassing, Passing, Decision, Tagged, IdsUsed;
    if step.Create? || step.Modify? || step.Change? || step.Add? {
      WriteKeepsTaggedIff(config, s, step);
    } else if step.SetCpr? {
      CprKeepsTaggedIff(config, s, step.person, step.cpr);
    } else {
      TaggedFrame(s, Next(config, s, step));
    }
  }

  lemma TaggedStepIsAllowed(config: Config, s: State, step: Step)
    requires Invariant(config, s) && Tagged(s) && Enabled(config, s, step) && Tags(config, s, step)
    ensures Allowed(config, s, step)
  {
    hide Next, Enabled, Allowed, Tags, Linked, CprMatches, LinkPending;
    StepKeepsTaggedIff(config, s, step);
    NoneLeakedIff(config, s, step);
  }

  ghost predicate AllTag(config: Config, s: State, steps: seq<Step>)
    requires Possible(config, s, steps)
    decreases |steps|
  {
    steps == [] || (Tags(config, s, steps[0]) && AllTag(config, Next(config, s, steps[0]), steps[1..]))
  }

  /** With tagged accounts any handler may fail and the process may crash anywhere, and links may end. */
  lemma {:induction false} TaggedRunIsAllowed(config: Config, s: State, steps: seq<Step>)
    requires Invariant(config, s) && Tagged(s) && Possible(config, s, steps) && AllTag(config, s, steps)
    ensures AllAllowed(config, s, steps)
    decreases |steps|
  {
    hide Next, Enabled, Allowed, Tags, Tagged, IdsUsed, LinksUnique, SteadyIsOwn, LookupsComplete, NoneLeaked;
    if steps != [] {
      TaggedStepIsAllowed(config, s, steps[0]);
      StepKeepsTaggedIff(config, s, steps[0]);
      StepKeepsInvariantIff(config, s, steps[0]);
      TaggedRunIsAllowed(config, Next(config, s, steps[0]), steps[1..]);
    }
  }

  // ---------------------------------------------------------------------------------------------
  // What one undisturbed handling does
  // ---------------------------------------------------------------------------------------------

  lemma {:induction false} OneThenOther(config: Config, s: State, steps: seq<Step>, more: seq<Step>)
    requires Possible(config, s, steps) && Possible(config, After(config, s, steps), more)
    ensures Possible(config, s, steps + more)
    ensures After(config, s, steps + more) == After(config, After(config, s, steps), more)
    decreases |steps|
  {
    hide Next, Enabled;
    if steps == [] {
      assert steps + more == more;
    } else {
      OneThenOther(config, Next(config, s, steps[0]), steps[1..], more);
      assert (steps + more)[1..] == steps[1..] + more;
    }
  }

  lemma OneStep(config: Config, s: State, step: Step)
    requires Enabled(config, s, step)
    ensures Possible(config, s, [step]) && After(config, s, [step]) == Next(config, s, step)
  {
    hide Next, Enabled;
    assert [step][1..] == [];
  }

  lemma Then(config: Config, s: State, steps: seq<Step>, step: Step)
    requires Possible(config, s, steps) && Enabled(config, After(config, s, steps), step)
    ensures Possible(config, s, steps + [step])
    ensures After(config, s, steps + [step]) == Next(config, After(config, s, steps), step)
  {
    hide Next, Enabled, Possible, After;
    OneStep(config, After(config, s, steps), step);
    OneThenOther(config, s, steps, [step]);
  }

  ghost predicate Lists<T(!new)>(order: seq<T>, xs: set<T>) {
    && (forall x :: x in order <==> x in xs)
    && (forall i, j :: 0 <= i < j < |order| ==> order[i] != order[j])
  }

  lemma ListsRest<T(!new)>(order: seq<T>, xs: set<T>)
    requires Lists(order, xs) && order != []
    ensures order[0] in xs && Lists(order[1..], xs - {order[0]})
  {
    assert order[0] in order;
    forall x ensures x in order[1..] <==> x in xs - {order[0]} {
      if x in order[1..] {
        var i :| 0 <= i < |order[1..]| && order[1..][i] == x;
        assert order[i + 1] == x && x in order;
      }
    }
  }

  /** The ones among some accounts that exist. */
  function Existing(s: State, us: set<Uuid>): map<Uuid, Account> {
    map u <- us | u in s.accounts :: s.accounts[u]
  }

  function Reads(p: Person, order: seq<Uuid>): seq<Step> {
    seq(|order|, i requires 0 <= i < |order| => ReadAccount(p, order[i]))
  }

  /** The state once everything that is to be read has been read. */
  function AllRead(s: State, p: Person): State
    requires PhaseOf(s, p).Finding?
  {
    var Finding(todo, found, gone, cprRead) := PhaseOf(s, p);
    To(s, p, Finding({}, found + Existing(s, todo), gone + (todo - s.accounts.Keys), cprRead))
  }

  lemma NothingToRead(s: State, p: Person)
    requires PhaseOf(s, p).Finding? && PhaseOf(s, p).todo == {}
    ensures AllRead(s, p) == s
  {
    var phase := s.phases[p];
    assert phase.found + Existing(s, {}) == phase.found && phase.gone + ({} - s.accounts.Keys) == phase.gone;
    assert s.phases[p := phase] == s.phases;
  }

  lemma OneReadFinds(s: State, todo: set<Uuid>, found: map<Uuid, Account>, gone: set<Uuid>, u: Uuid)
    requires u in todo
    ensures u in s.accounts ==> found[u := s.accounts[u]] + Existing(s, todo - {u}) == found + Existing(s, todo)
    ensures u in s.accounts ==> gone + (todo - {u} - s.accounts.Keys) == gone + (todo - s.accounts.Keys)
    ensures u !in s.accounts ==> Existing(s, todo - {u}) == Existing(s, todo)
    ensures u !in s.accounts ==> gone + {u} + (todo - {u} - s.accounts.Keys) == gone + (todo - s.accounts.Keys)
  {
  }

  lemma OneRead(config: Config, s: State, p: Person, u: Uuid)
    requires Enabled(config, s, ReadAccount(p, u))
    ensures var read := Next(config, s, ReadAccount(p, u));
      && PhaseOf(read, p).Finding? && PhaseOf(read, p).todo == PhaseOf(s, p).todo - {u}
      && AllRead(read, p) == AllRead(s, p)
  {
    var read := Next(config, s, ReadAccount(p, u));
    var Finding(todo, found, gone, _) := s.phases[p];
    assert Existing(read, todo - {u}) == Existing(s, todo - {u});
    OneReadFinds(s, todo, found, gone, u);
    hide Existing;
    var phase := AllRead(s, p).phases[p];
    assert read.phases[p := phase] == s.phases[p := phase];
  }

  /** Reading all the linked accounts, in any order, finds those that exist. */
  lemma {:induction false} ReadsRun(config: Config, s: State, p: Person, order: seq<Uuid>)
    requires PhaseOf(s, p).Finding? && Lists(order, PhaseOf(s, p).todo)
    ensures Possible(config, s, Reads(p, order)) && After(config, s, Reads(p, order)) == AllRead(s, p)
    decreases |order|
  {
    if order == [] {
      assert forall u <- PhaseOf(s, p).todo :: u in order;
      NothingToRead(s, p);
    } else {
      var u := order[0];
      ListsRest(order, PhaseOf(s, p).todo);
      OneRead(config, s, p, u);
      hide AllRead, Next, Lists;
      assert Reads(p, order)[1..] == Reads(p, order[1..]) && Reads(p, order)[0] == ReadAccount(p, u);
      ReadsRun(config, Next(config, s, ReadAccount(p, u)), p, order[1..]);
    }
  }

  function Terminates(p: Person, ends: seq<LinkId>): seq<Step> {
    seq(|ends|, i requires 0 <= i < |ends| => Terminate(p, ends[i]))
  }

  /** The active links of the person to accounts that are gone. */
  function LinksToEnd(s: State, p: Person, gone: set<Uuid>): set<LinkId> {
    set l <- s.links | s.links[l].person == p && s.links[l].active && s.links[l].account in gone
  }

  function Ended(links: map<LinkId, Link>, ends: set<LinkId>): map<LinkId, Link> {
    map l <- links :: if l in ends then links[l].(active := false) else links[l]
  }

  /** Terminating them, in any order. */
  lemma {:induction false} TerminatesRun(config: Config, s: State, p: Person, ends: seq<LinkId>, gone: set<Uuid>)
    requires PhaseOf(s, p).Finding? && PhaseOf(s, p).todo == {} && PhaseOf(s, p).gone == gone
    requires Lists(ends, LinksToEnd(s, p, gone))
    ensures Possible(config, s, Terminates(p, ends))
    ensures After(config, s, Terminates(p, ends)) == s.(links := Ended(s.links, LinksToEnd(s, p, gone)))
    decreases |ends|
  {
    var toEnd := LinksToEnd(s, p, gone);
    if ends == [] {
      assert Ended(s.links, toEnd) == s.links;
    } else {
      var l := ends[0];
      ListsRest(ends, toEnd);
      var ended := Next(config, s, Terminate(p, l));
      assert LinksToEnd(ended, p, gone) == toEnd - {l};
      TerminatesRun(config, ended, p, ends[1..], gone);
      assert Terminates(p, ends)[1..] == Terminates(p, ends[1..]) && Terminates(p, ends)[0] == Terminate(p, l);
      assert Ended(ended.links, toEnd - {l}) == Ended(s.links, toEnd);
    }
  }

  /** The accounts a lookup has to read. */
  function ToRead(config: Config, s: State, p: Person): set<Uuid> {
    if config.hasItSystem then LinkedAccounts(s, p) else {}
  }

  /** What an undisturbed lookup finds, and the links it has to end. */
  function FoundFor(config: Config, s: State, p: Person): map<Uuid, Account> {
    FoundByCpr(s, p) + Existing(s, ToRead(config, s, p))
  }

  /** Those are, as they stand, the accounts an active link of the person names, if there is an IT-system for
      links, and the accounts within the search that have the person's CPR number. */
  lemma FoundForIff(config: Config, s: State, p: Person, u: Uuid)
    ensures u in FoundFor(config, s, p) <==>
      && u in s.accounts
      && (|| (config.hasItSystem && exists l :: l in s.links && s.links[l] == Link(p, u, true))
          || (p in s.cprs && s.accounts[u].searchable && s.accounts[u].cpr == Some(s.cprs[p])))
    ensures u in FoundFor(config, s, p) ==> FoundFor(config, s, p)[u] == s.accounts[u]
    ensures u in s.accounts ==> (Findable(config, s, p, u) <==> u in FoundFor(config, s, p))
  {
    LinkedIsListed(s, p, u);
    assert Linked(s, p, u) <==> exists l :: l in s.links && s.links[l] == Link(p, u, true) by {
      assert forall l <- s.links :: IsActive(s, l, p, u) <==> s.links[l] == Link(p, u, true);
    }
    hide Linked, LinkedAccounts;
  }

  function StaleLinks(config: Config, s: State, p: Person): set<LinkId> {
    LinksToEnd(s, p, ToRead(config, s, p) - s.accounts.Keys)
  }

  function Lookup(p: Person, order: seq<Uuid>, ends: seq<LinkId>): seq<Step> {
    [Begin(p)] + Reads(p, order) + [ReadCpr(p)] + Terminates(p, ends) + [Decide(p)]
  }

  /** The state an undisturbed lookup ends in. */
  ghost predicate LookedUp(config: Config, s: State, p: Person, after: State) {
    && after.phases == s.phases[p := Decision(config, FoundFor(config, s, p))]
    && after.links == Ended(s.links, StaleLinks(config, s, p))
    && after.(phases := s.phases, links := s.links, steady := s.steady) == s
  }

  /** The state before the stale links are ended. */
  ghost predicate HasRead(config: Config, s: State, p: Person, after: State) {
    && after.phases == s.phases[p := Finding({}, FoundFor(config, s, p), ToRead(config, s, p) - s.accounts.Keys, true)]
    && after.(phases := s.phases, steady := s.steady) == s
  }

  lemma LookupReadsLinked(config: Config, s: State, p: Person, order: seq<Uuid>)
    requires PhaseOf(s, p) == Idle && UniqueLinksOf(s, p) && Lists(order, ToRead(config, s, p))
    ensures var steps := [Begin(p)] + Reads(p, order);
      && Possible(config, s, steps)
      && var read := After(config, s, steps);
         && read.phases == s.phases[p :=
           Finding({}, Existing(s, ToRead(config, s, p)), ToRead(config, s, p) - s.accounts.Keys, false)]
         && read.(phases := s.phases, steady := s.steady) == s
  {
    hide Possible, After, CprMatches, UniqueLinksOf, LinkedAccounts, OwnPassing, Lists;
    var begun := Next(config, s, Begin(p));
    OneStep(config, s, Begin(p));
    ReadsRun(config, begun, p, order);
    OneThenOther(config, s, [Begin(p)], Reads(p, order));
    var toRead, gone := ToRead(config, s, p), ToRead(config, s, p) - s.accounts.Keys;
    assert map[] + Existing(begun, toRead) == Existing(s, toRead) && {} + gone == gone;
  }

  lemma LookupReads(config: Config, s: State, p: Person, order: seq<Uuid>)
    requires PhaseOf(s, p) == Idle && UniqueLinksOf(s, p) && Lists(order, ToRead(config, s, p))
    ensures var steps := [Begin(p)] + Reads(p, order) + [ReadCpr(p)];
      Possible(config, s, steps) && HasRead(config, s, p, After(config, s, steps))
  {
    hide Possible, After, CprMatches, UniqueLinksOf, LinkedAccounts, OwnPassing, Lists, Existing, ToRead, Reads;
    LookupReadsLinked(config, s, p, order);
    var read := After(config, s, [Begin(p)] + Reads(p, order));
    assert FoundByCpr(read, p) == FoundByCpr(s, p);
    hide FoundByCpr;
    Then(config, s, [Begin(p)] + Reads(p, order), ReadCpr(p));
  }

  /** An undisturbed lookup of any person decides on exactly the accounts that the CPR number and the
      links lead to, and ends exactly the links whose accounts are gone. */
  lemma UndisturbedLookup(config: Config, s: State, p: Person, order: seq<Uuid>, ends: seq<LinkId>)
    requires PhaseOf(s, p) == Idle && UniqueLinksOf(s, p)
    requires Lists(order, ToRead(config, s, p)) && Lists(ends, StaleLinks(config, s, p))
    ensures Possible(config, s, Lookup(p, order, ends))
    ensures LookedUp(config, s, p, After(config, s, Lookup(p, order, ends)))
  {
    hide Possible, After, CprMatches, UniqueLinksOf, OwnPassing, Lists, Decision, FoundFor, Next;
    var reading := [Begin(p)] + Reads(p, order) + [ReadCpr(p)];
    LookupReads(config, s, p, order);
    var read := After(config, s, reading);
    var gone := ToRead(config, s, p) - s.accounts.Keys;
    TerminatesRun(config, read, p, ends, gone);
    OneThenOther(config, s, reading, Terminates(p, ends));
    var ended := After(config, read, Terminates(p, ends));
    assert LinkedAccounts(ended, p) !! gone;
    assert Next(config, ended, Decide(p)) == To(ended, p, Decision(config, FoundFor(config, s, p))) by {
      DecideIs(config, ended, p);
    }
    Then(config, s, reading + Terminates(p, ends), Decide(p));
  }

  lemma DecideIs(config: Config, s: State, p: Person)
    requires Enabled(config, s, Decide(p))
    ensures Next(config, s, Decide(p)) == To(s, p, Decision(config, PhaseOf(s, p).found))
  {
    hide Decision;
  }

  /** Without the conditions on crashes the result would be false: an account that can no longer be
      found for its person is duplicated by the next handling, although it exists and passes. */
  lemma LeakedAccountIsDuplicated(config: Config, s: State, p: Person, order: seq<Uuid>, ends: seq<LinkId>, u: Uuid,
                                  v: Uuid, a: Account)
    requires PhaseOf(s, p) == Idle && UniqueLinksOf(s, p)
    requires Lists(order, ToRead(config, s, p)) && Lists(ends, StaleLinks(config, s, p))
    requires u in OwnPassing(config, s, p) && Passing(config, FoundFor(config, s, p)) == map[]
    requires v !in s.used && u in s.used && config.passes(a)
    ensures var steps := Lookup(p, order, ends) + [Create(p, v, a)];
      Possible(config, s, steps) && u != v && {u, v} <= OwnPassing(config, After(config, s, steps), p)
  {
    hide Possible, After, CprMatches, UniqueLinksOf, LinkedAccounts, Lists, FoundFor, Ended, StaleLinks;
    UndisturbedLookup(config, s, p, order, ends);
    Then(config, s, Lookup(p, order, ends), Create(p, v, a));
  }

  /** Linking after a write: either the link is there, or it is created next. */
  lemma LinkIsRestored(config: Config, s: State, p: Person, l: LinkId)
    requires PhaseOf(s, p).Written? && PhaseOf(s, p).account in s.accounts && config.hasItSystem && l !in s.links
    ensures var u, checked := PhaseOf(s, p).account, Next(config, s, CheckLink(p));
      if PhaseOf(checked, p) == Idle then Linked(checked, p, u)
      else Enabled(config, checked, CreateLink(p, l)) && Linked(Next(config, checked, CreateLink(p, l)), p, u)
  {
    var u, checked := PhaseOf(s, p).account, Next(config, s, CheckLink(p));
    LinkedFrame(s, checked, p, u);
    if PhaseOf(checked, p) != Idle {
      assert IsActive(Next(config, checked, CreateLink(p, l)), l, p, u);
    }
  }

  /** The steps from the decision to modify an account to the end of the handling. */
  function WriteSteps(p: Person, b: Account, linked: bool, l: LinkId): seq<Step> {
    [Modify(p, b)] + [CheckLink(p)] + if linked then [] else [CreateLink(p, l)]
  }

  lemma WriteAndLink(config: Config, s: State, p: Person, u: Uuid, b: Account, l: LinkId)
    requires config.hasItSystem && PhaseOf(s, p) == Modifying(u) && u in s.accounts && l !in s.links
    ensures var steps := WriteSteps(p, b, Linked(s, p, u), l);
      && Possible(config, s, steps)
      && var end := After(config, s, steps);
         Linked(end, p, u) && PhaseOf(end, p) == Idle && end.accounts == s.accounts[u := b]
  {
    hide Possible, After, CprMatches, UniqueLinksOf, OwnPassing, LinkedAccounts;
    OneStep(config, s, Modify(p, b));
    var written := Next(config, s, Modify(p, b));
    LinkedFrame(s, written, p, u);
    LinkIsRestored(config, written, p, l);
    Then(config, s, [Modify(p, b)], CheckLink(p));
    if Linked(s, p, u) {
      assert [Modify(p, b)] + [CheckLink(p)] + [] == [Modify(p, b)] + [CheckLink(p)];
    } else {
      hide Linked;
      Then(config, s, [Modify(p, b)] + [CheckLink(p)], CreateLink(p, l));
    }
  }

  /** Self-healing: one undisturbed handling of any person, whatever links it has and however many accounts
      carry its CPR number, modifies the account that the discriminator selects among those found, creates
      none, and leaves the person linked to it. */
  lemma SelfHealing(config: Config, s: State, p: Person, order: seq<Uuid>, ends: seq<LinkId>, u: Uuid, b: Account,
                    l: LinkId)
    requires PhaseOf(s, p) == Idle && UniqueLinksOf(s, p) && l !in s.links && config.hasItSystem
    requires Lists(order, ToRead(config, s, p)) && Lists(ends, StaleLinks(config, s, p))
    requires var passing := Passing(config, FoundFor(config, s, p)); u in passing && config.select(passing) == Some(u)
    ensures var steps := Lookup(p, order, ends) + WriteSteps(p, b, Linked(s, p, u), l);
      && Possible(config, s, steps)
      && var end := After(config, s, steps);
         Linked(end, p, u) && PhaseOf(end, p) == Idle && end.accounts == s.accounts[u := b]
  {
    hide Possible, After, CprMatches, UniqueLinksOf, Lists, Next;
    UndisturbedLookup(config, s, p, order, ends);
    var found := After(config, s, Lookup(p, order, ends));
    assert PhaseOf(found, p) == Modifying(u) && u in s.accounts;
    EndedKeepsLinked(config, s, p, found, u);
    hide LookedUp, FoundFor, StaleLinks, Linked;
    WriteAndLink(config, found, p, u, b, l);
    OneThenOther(config, s, Lookup(p, order, ends), WriteSteps(p, b, Linked(s, p, u), l));
  }

  lemma EndedKeepsLinked(config: Config, s: State, p: Person, after: State, u: Uuid)
    requires LookedUp(config, s, p, after) && u in s.accounts
    ensures Linked(after, p, u) == Linked(s, p, u) && after.accounts == s.accounts && after.links.Keys == s.links.Keys
  {
    hide Decision, FoundFor, FoundByCpr;
    forall l ensures IsActive(after, l, p, u) <==> IsActive(s, l, p, u) {
    }
    LinkedFrame(s, after, p, u);
  }
}
