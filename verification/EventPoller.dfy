/** The LDAP change poller (mo_ldap_import_export/ldap_event_generator.py:146-279): a durable cursor
    is moved over a directory that keeps changing with one-second timestamps. */
module EventPoller {
  import opened Wrappers
  import PagedSearch

  type Uuid = nat

  /** Whole seconds since midnight on the 1st of January 1601. */
  type Timestamp = nat

  const MICROSOFT_EPOCH: Timestamp := 0

  /** An LDAP entry as the poll reads it; a server may withhold either attribute. */
  datatype Event = Event(uuid: Option<Uuid>, modifyTimestamp: Option<Timestamp>)

  datatype PollResult = PollResult(uuids: set<Uuid>, timestamp: Option<Timestamp>)

  /** The value of the `last_run` row: the cursor and the UUIDs found when it was last moved. */
  datatype Row = Row(cursor: Timestamp, stored: set<Uuid>)

  /** The relevant entries of the directory and their modification times. */
  type Directory = map<Uuid, Timestamp>

  // ---------------------------------------------------------------------------------------------
  // One poll
  // ---------------------------------------------------------------------------------------------

  function Later(a: Option<Timestamp>, b: Option<Timestamp>): Option<Timestamp> {
    if a.None? || (b.Some? && a.value < b.value) then b else a
  }

  /** The latest modification time among the events, if any carries one. */
  function Latest(events: seq<Event>): (latest: Option<Timestamp>)
    ensures latest.None? <==> forall e <- events :: e.modifyTimestamp.None?
    ensures latest.Some? ==> exists e <- events :: e.modifyTimestamp == latest
    ensures forall e <- events :: e.modifyTimestamp.Some? ==> latest.Some? && e.modifyTimestamp.value <= latest.value
  {
    if events == [] then None else
      assert events == [events[0]] + events[1..];
      Later(events[0].modifyTimestamp, Latest(events[1..]))
  }

  function Poll(events: seq<Event>): (result: PollResult)
    ensures forall u :: u in result.uuids <==> exists e <- events :: e.uuid == Some(u)
  {
    PollResult(set e <- events | e.uuid.Some? :: e.uuid.value, Latest(events))
  }

  /** Whether a poll result gives reason to send events. */
  predicate Differs(row: Row, found: set<Uuid>, latest: Option<Timestamp>) {
    found != row.stored || latest != Some(row.cursor)
  }

  function Committed(row: Row, found: set<Uuid>, latest: Option<Timestamp>): Row {
    if latest.None? then row else Row(latest.value, found)
  }

  class LastRun {
    var datetime: Timestamp
    var uuids: seq<Uuid>

    constructor ()
      ensures datetime == MICROSOFT_EPOCH && uuids == []
    {
      datetime, uuids := MICROSOFT_EPOCH, [];
    }

    ghost function Value(): Row
      reads this
    {
      Row(datetime, set u <- uuids)
    }
  }

  /** The generator of one search base: its row, if it exists yet, and the events sent so far. */
  class EventGenerator {
    var lastRun: LastRun?
    var sent: seq<Uuid>

    constructor ()
      ensures lastRun == null && sent == []
    {
      lastRun, sent := null, [];
    }

    ghost function Value(): Row
      reads this, lastRun
    {
      if lastRun == null then Row(MICROSOFT_EPOCH, {}) else lastRun.Value()
    }

    method PublishUuids(uuids: set<Uuid>)
      modifies this`sent
      ensures multiset(sent) == multiset(old(sent)) + multiset(uuids)
    {
      var todo := uuids;
      while todo != {}
        invariant todo <= uuids
        invariant multiset(sent) + multiset(todo) == multiset(old(sent)) + multiset(uuids)
      {
        var uuid :| uuid in todo;
        assert multiset(todo) == multiset(todo - {uuid}) + multiset{uuid};
        sent := sent + [uuid];
        todo := todo - {uuid};
      }
    }

    /** One round of the poller against `ldap`, which answers a search for changes since a time. */
    method GenerateEvents(ldap: Timestamp -> (Option<nat> -> PagedSearch.Reply<Event>))
      modifies this, lastRun
      ensures lastRun != null && (old(lastRun) == null || lastRun == old(lastRun))
      ensures var row := old(Value());
              var found := Poll(PagedSearch.Collected(ldap(row.cursor), None, PagedSearch.MAX_PAGES));
              && Value() == Committed(row, found.uuids, found.timestamp)
              && multiset(sent) == multiset(old(sent))
                + (if Differs(row, found.uuids, found.timestamp) then multiset(found.uuids) else multiset{})
    {
      hide Poll, PagedSearch.Collected;
      if lastRun == null {
        lastRun := new LastRun();
      }
      var parameters := new PagedSearch.SearchParameters();
      var events := PagedSearch.Search(ldap(lastRun.datetime), parameters);
      var found := Poll(events);
      var stored := set u <- lastRun.uuids;
      if found.uuids != stored || found.timestamp != Some(lastRun.datetime) {
        PublishUuids(found.uuids);
      }
      if found.timestamp == None {
        return;
      }
      var uuids := ListOf(found.uuids);
      lastRun.uuids, lastRun.datetime := uuids, found.timestamp.value;
    }
  }

  method ListOf(uuids: set<Uuid>) returns (list: seq<Uuid>)
    ensures (set u <- list) == uuids
  {
    list := [];
    var todo := uuids;
    while todo != {}
      invariant forall u :: u in uuids <==> u in list || u in todo
    {
      var uuid :| uuid in todo;
      list, todo := list + [uuid], todo - {uuid};
    }
  }

  // ---------------------------------------------------------------------------------------------
  // The poller and its environment, step by step
  // ---------------------------------------------------------------------------------------------

  function Matching(directory: Directory, since: Timestamp): (matching: set<Uuid>)
    ensures matching <= directory.Keys
  {
    set u <- directory | directory[u] >= since
  }

  /** The latest modification time of some entries of the directory. */
  ghost function LatestOf(directory: Directory, uuids: set<Uuid>): (latest: Option<Timestamp>)
    requires uuids <= directory.Keys
    ensures latest.None? <==> uuids == {}
    ensures latest.Some? ==> exists u <- uuids :: directory[u] == latest.value
    ensures forall u <- uuids :: latest.Some? && directory[u] <= latest.value
  {
    if uuids == {} then None else
      var u :| u in uuids;
      Later(Some(directory[u]), LatestOf(directory, uuids - {u}))
  }

  /** The events are those of the given entries, each with both of its attributes. */
  predicate Answers(events: seq<Event>, directory: Directory, uuids: set<Uuid>)
    requires uuids <= directory.Keys
  {
    && (forall e <- events ::
      e.uuid.Some? && e.uuid.value in uuids && e.modifyTimestamp == Some(directory[e.uuid.value]))
    && (forall u <- uuids :: Event(Some(u), Some(directory[u])) in events)
  }

  lemma LatestIs(events: seq<Event>, event: Event)
    requires event in events && event.modifyTimestamp.Some?
    requires forall e <- events :: e.modifyTimestamp.Some? ==> e.modifyTimestamp.value <= event.modifyTimestamp.value
    ensures Latest(events) == event.modifyTimestamp
  {
  }

  lemma PollOfAnswer(directory: Directory, uuids: set<Uuid>, events: seq<Event>)
    requires uuids <= directory.Keys && Answers(events, directory, uuids)
    ensures Poll(events) == PollResult(uuids, LatestOf(directory, uuids))
  {
    assert Poll(events).uuids == uuids by {
      hide Latest;
      assert forall u :: u in Poll(events).uuids ==> u in uuids;
      forall u <- uuids
        ensures u in Poll(events).uuids
      {
        assert Event(Some(u), Some(directory[u])) in events;
      }
    }
    hide Latest;
    var latest := LatestOf(directory, uuids);
    if latest.Some? {
      var u :| u in uuids && directory[u] == latest.value;
      LatestIs(events, Event(Some(u), Some(directory[u])));
    }
  }

  datatype Phase =
    | Idle
    | Polling(found: set<Uuid>, latest: Option<Timestamp>, sent: set<Uuid>)

  /** `pending` is a history variable: the entries changed since the last event sent for them. */
  datatype State = State(directory: Directory, row: Row, phase: Phase, pending: set<Uuid>)

  datatype Step =
    | Change(uuid: Uuid, stamp: Timestamp)
    | Delete(uuid: Uuid)
    | Read(answer: set<Uuid>)
    | Send(uuid: Uuid)
    | Commit
    | Crash

  /** An answer may be cut short, so that `answer` need not hold every matching entry. */
  predicate Enabled(s: State, step: Step) {
    match step
    case Change(_, _) => true
    case Delete(uuid) => uuid in s.directory
    case Read(answer) => s.phase.Idle? && answer <= Matching(s.directory, s.row.cursor)
    case Send(uuid) => WillSend(s, uuid)
    case Commit => s.phase.Polling? && (Differs(s.row, s.phase.found, s.phase.latest) ==> s.phase.sent == s.phase.found)
    case Crash => true
  }

  /** The transaction commits with the poll; a crash rolls it back but cannot recall sent events. */
  ghost function Next(s: State, step: Step): State
    requires Enabled(s, step)
  {
    match step
    case Change(uuid, stamp) => s.(directory := s.directory[uuid := stamp], pending := s.pending + {uuid})
    case Delete(uuid) => s.(directory := s.directory - {uuid})
    case Read(answer) => s.(phase := Polling(answer, LatestOf(s.directory, answer), {}))
    case Send(uuid) => s.(phase := s.phase.(sent := s.phase.sent + {uuid}), pending := s.pending - {uuid})
    case Commit => s.(row := Committed(s.row, s.phase.found, s.phase.latest), phase := Idle)
    case Crash => s.(phase := Idle)
  }

  predicate WillSend(s: State, uuid: Uuid) {
    && s.phase.Polling?
    && Differs(s.row, s.phase.found, s.phase.latest)
    && uuid in s.phase.found - s.phase.sent
  }

  /** A stamp after the cursor, or at the cursor for a UUID that is not stored. */
  predicate IsNews(row: Row, uuid: Uuid, stamp: Timestamp) {
    stamp > row.cursor || (stamp == row.cursor && uuid !in row.stored)
  }

  predicate Visible(row: Row, directory: Directory, uuid: Uuid)
    requires uuid in directory
  {
    IsNews(row, uuid, directory[uuid])
  }

  /** The latest change of the entry cannot be missed, whether or not the poll under way commits. */
  predicate Safe(s: State, uuid: Uuid)
    requires uuid in s.directory
  {
    && Visible(s.row, s.directory, uuid)
    && (s.phase.Polling? ==>
          WillSend(s, uuid) || Visible(Committed(s.row, s.phase.found, s.phase.latest), s.directory, uuid))
  }

  predicate NothingLost(s: State) {
    forall u <- s.pending * s.directory.Keys :: Safe(s, u)
  }

  predicate WellFormed(s: State) {
    s.phase.Polling? ==>
      && (s.phase.latest.None? <==> s.phase.found == {})
      && (s.phase.latest.Some? ==> s.phase.latest.value >= s.row.cursor)
  }

  /** What the environment must respect: a change is stamped after the cursor, or at the cursor if
      its UUID is not stored, seen from the row as it is and from the row the poll under way leaves;
      an answer that leaves out a pending entry holds nothing stamped after that entry. */
  ghost predicate Allowed(s: State, step: Step)
    requires Enabled(s, step)
  {
    match step
    case Change(uuid, stamp) =>
      && IsNews(s.row, uuid, stamp)
      && (s.phase.Polling? && !WillSend(s, uuid) ==>
        IsNews(Committed(s.row, s.phase.found, s.phase.latest), uuid, stamp))
    case Read(answer) =>
      forall u, v :: u in s.pending * s.directory.Keys && u !in answer && v in answer ==>
        s.directory[v] <= s.directory[u]
    case _ => true
  }

  lemma StepIsWellFormed(s: State, step: Step)
    requires WellFormed(s) && Enabled(s, step)
    ensures WellFormed(Next(s, step))
    ensures Next(s, step).row.cursor >= s.row.cursor
  {
  }

  lemma ReadKeepsIff(s: State, answer: set<Uuid>)
    requires WellFormed(s) && NothingLost(s) && Enabled(s, Read(answer))
    ensures NothingLost(Next(s, Read(answer))) <==> Allowed(s, Read(answer))
  {
    var s' := Next(s, Read(answer));
    var latest := s'.phase.latest;
    forall u <- s.pending * s.directory.Keys
      ensures Safe(s', u) <==> u in answer || latest.None? || latest.value <= s.directory[u]
    {
    }
    if latest.Some? {
      var v :| v in answer && s.directory[v] == latest.value;
    }
  }

  /** The invariant survives a step exactly when the environment respects its rule. The invariant is on
      the safe side: what breaks it may still be reported (see EventuallyReportedIff). */
  lemma StepKeepsIff(s: State, step: Step)
    requires WellFormed(s) && NothingLost(s) && Enabled(s, step)
    ensures NothingLost(Next(s, step)) <==> Allowed(s, step)
  {
    match step
    case Read(answer) => ReadKeepsIff(s, answer);
    case Change(uuid, stamp) =>
      var s' := Next(s, step);
      assert forall u <- s'.pending * s'.directory.Keys :: u != uuid ==>
        u in s.pending * s.directory.Keys && (Safe(s', u) <==> Safe(s, u));
      assert uuid in s'.pending * s'.directory.Keys;
    case Delete(uuid) =>
      var s' := Next(s, step);
      assert forall u <- s'.pending * s'.directory.Keys :: u in s.pending * s.directory.Keys && (Safe(s', u) <==>
        Safe(s, u));
    case Send(uuid) =>
      var s' := Next(s, step);
      assert forall u <- s'.pending * s'.directory.Keys :: u in s.pending * s.directory.Keys && (Safe(s', u) <==>
        Safe(s, u));
    case Commit =>
      var s' := Next(s, step);
      forall u <- s'.pending * s'.directory.Keys
        ensures Safe(s', u)
      {
        assert u in s.pending * s.directory.Keys && !WillSend(s, u);
      }
    case Crash =>
  }

  // ---------------------------------------------------------------------------------------------
  // Whole runs
  // ---------------------------------------------------------------------------------------------

  predicate Initial(s: State) {
    s.row == Row(MICROSOFT_EPOCH, {}) && s.phase == Idle
  }

  /** Whether the steps can be taken one after the other. */
  ghost predicate Possible(s: State, steps: seq<Step>)
    decreases |steps|
  {
    steps != [] ==> Enabled(s, steps[0]) && Possible(Next(s, steps[0]), steps[1..])
  }

  ghost function Run(s: State, steps: seq<Step>): State
    requires Possible(s, steps)
    decreases |steps|
  {
    if steps == [] then s else Run(Next(s, steps[0]), steps[1..])
  }

  ghost predicate AllAllowed(s: State, steps: seq<Step>)
    requires Possible(s, steps)
    decreases |steps|
  {
    steps != [] ==> Allowed(s, steps[0]) && AllAllowed(Next(s, steps[0]), steps[1..])
  }

  lemma {:induction false} RunKeeps(s: State, steps: seq<Step>)
    requires WellFormed(s) && Possible(s, steps)
    ensures WellFormed(Run(s, steps)) && Run(s, steps).row.cursor >= s.row.cursor
    ensures NothingLost(s) && AllAllowed(s, steps) ==> NothingLost(Run(s, steps))
    decreases |steps|
  {
    if steps != [] {
      StepIsWellFormed(s, steps[0]);
      if NothingLost(s) {
        StepKeepsIff(s, steps[0]);
      }
      RunKeeps(Next(s, steps[0]), steps[1..]);
    }
  }

  /** In every run from a fresh row, whatever the directory held at the start, the latest change of
      each live entry has been reported, or is stamped after the cursor, or is stamped at the cursor
      with a UUID outside the stored set. */
  lemma NoLostChange(s: State, steps: seq<Step>)
    requires Initial(s) && Possible(s, steps) && AllAllowed(s, steps)
    ensures var end := Run(s, steps);
            forall u <- end.directory :: u !in end.pending || Visible(end.row, end.directory, u)
  {
    RunKeeps(s, steps);
    var end := Run(s, steps);
    forall u <- end.directory | u in end.pending
      ensures Visible(end.row, end.directory, u)
    {
      assert u in end.pending * end.directory.Keys;
    }
  }

  // ---------------------------------------------------------------------------------------------
  // Undisturbed polls
  // ---------------------------------------------------------------------------------------------

  ghost function SentBy(row: Row, directory: Directory): set<Uuid> {
    var found := Matching(directory, row.cursor);
    if Differs(row, found, LatestOf(directory, found)) then found else {}
  }

  ghost function AfterPoll(row: Row, directory: Directory): Row {
    var found := Matching(directory, row.cursor);
    Committed(row, found, LatestOf(directory, found))
  }

  /** Against a server that answers with all matching entries, and has at most as many as the paged
      search reaches, the row and the events of one round are those of a poll of the directory. */
  lemma RoundOfServer(row: Row, directory: Directory, results: seq<PagedSearch.Message<Event>>)
    requires |results| <= PagedSearch.PAGE_SIZE * PagedSearch.MAX_PAGES
    requires Answers(PagedSearch.Entries(results), directory, Matching(directory, row.cursor))
    ensures var found := Poll(PagedSearch.Collected(PagedSearch.Server(results, None), None, PagedSearch.MAX_PAGES));
      && Committed(row, found.uuids, found.timestamp) == AfterPoll(row, directory)
      && (if Differs(row, found.uuids, found.timestamp) then found.uuids else {}) == SentBy(row, directory)
  {
    hide Poll, Differs, Answers;
    PagedSearch.SearchIsCompleteIff(results);
    PollOfAnswer(directory, Matching(directory, row.cursor), PagedSearch.Entries(results));
  }

  ghost function AfterPolls(row: Row, directory: Directory, n: nat): Row {
    if n == 0 then row else AfterPoll(AfterPolls(row, directory, n - 1), directory)
  }

  ghost predicate Lists(order: seq<Uuid>, uuids: set<Uuid>) {
    && (forall u :: u in order <==> u in uuids)
    && (forall i, j :: 0 <= i < j < |order| ==> order[i] != order[j])
  }

  ghost function Sends(order: seq<Uuid>): seq<Step> {
    if order == [] then [Commit] else [Send(order[0])] + Sends(order[1..])
  }

  lemma {:induction false} SendsDrain(s: State, order: seq<Uuid>)
    requires s.phase.Polling? && Differs(s.row, s.phase.found, s.phase.latest)
    requires s.phase.sent <= s.phase.found && Lists(order, s.phase.found - s.phase.sent)
    ensures Possible(s, Sends(order))
    ensures Run(s, Sends(order)) == State(s.directory, Committed(s.row, s.phase.found, s.phase.latest), Idle,
                                          s.pending - (s.phase.found - s.phase.sent))
    decreases |order|
  {
    if order == [] {
      assert forall u <- s.phase.found - s.phase.sent :: u in order;
      assert s.phase.found == s.phase.sent + (s.phase.found - s.phase.sent);
    } else {
      var u := order[0];
      assert u in order;
      var s' := Next(s, Send(u));
      forall v
        ensures v in order[1..] <==> v in s'.phase.found - s'.phase.sent
      {
        if v in s'.phase.found - s'.phase.sent {
          assert v in order && v != u;
        }
        if v in order[1..] {
          var i :| 0 <= i < |order[1..]| && order[1..][i] == v;
          assert order[i + 1] == v && order[0] != order[i + 1];
          assert v in order;
        }
      }
      SendsDrain(s', order[1..]);
      assert Sends(order)[1..] == Sends(order[1..]);
      assert s.pending - {u} - (s'.phase.found - s'.phase.sent) == s.pending - (s.phase.found - s.phase.sent);
    }
  }

  /** A whole poll that nothing disturbs ends with the row of `AfterPoll`, has sent exactly the
      events of `SentBy`, and leaves no change of a live entry unreported. */
  lemma UndisturbedPoll(s: State, order: seq<Uuid>)
    requires s.phase == Idle && Lists(order, SentBy(s.row, s.directory))
    ensures var steps := [Read(Matching(s.directory, s.row.cursor))] + Sends(order);
            && Possible(s, steps)
            && var end := Run(s, steps);
               && end == State(s.directory, AfterPoll(s.row, s.directory), Idle, s.pending - SentBy(s.row, s.directory))
               && (NothingLost(s) ==> end.pending * end.directory.Keys == {})
  {
    var found := Matching(s.directory, s.row.cursor);
    var s1 := Next(s, Read(found));
    var steps := [Read(found)] + Sends(order);
    assert steps[0] == Read(found) && steps[1..] == Sends(order);
    assert order == [] || order[0] in order;
    if Differs(s.row, found, s1.phase.latest) {
      assert found - {} == found;
      SendsDrain(s1, order);
    } else {
      assert Sends(order)[1..] == [];
      assert s.pending - {} == s.pending;
      assert Run(s1, Sends(order)) == Next(s1, Commit);
    }
    if NothingLost(s) {
      forall u <- s.pending * s.directory.Keys
        ensures u in SentBy(s.row, s.directory)
      {
        assert Visible(s.row, s.directory, u);
        assert u in found;
      }
    }
  }

  // ---------------------------------------------------------------------------------------------
  // Quiescence
  // ---------------------------------------------------------------------------------------------

  lemma AfterPollAdvances(row: Row, directory: Directory)
    ensures AfterPoll(row, directory).cursor >= row.cursor
  {
  }

  /** From any row, however it came about, at most the next two polls of an unchanging directory send
      anything: from the third on nothing is sent and the row stays as it is. */
  lemma {:induction false} Quiescence(row: Row, directory: Directory, n: nat)
    requires n >= 2
    ensures SentBy(AfterPolls(row, directory, n), directory) == {}
    ensures AfterPolls(row, directory, n) == AfterPolls(row, directory, 2)
    decreases n
  {
    var r0 := row;
    var r1 := AfterPoll(r0, directory);
    var r2 := AfterPoll(r1, directory);
    assert AfterPolls(row, directory, 1) == AfterPoll(AfterPolls(row, directory, 0), directory) == r1;
    assert AfterPolls(row, directory, 2) == r2;
    SecondPollSettles(row, directory);
    if n > 2 {
      Quiescence(row, directory, n - 1);
      SettledStays(r2, directory);
    }
  }

  /** A row that a poll of the directory leaves alone and has nothing to report for. */
  ghost predicate Settled(row: Row, directory: Directory) {
    SentBy(row, directory) == {} && AfterPoll(row, directory) == row
  }

  lemma SettledStays(row: Row, directory: Directory)
    requires Settled(row, directory)
    ensures Settled(AfterPoll(row, directory), directory)
  {
  }

  lemma FirstPollFinds(row: Row, directory: Directory)
    ensures var row' := AfterPoll(row, directory);
            || Settled(row, directory)
            || (row'.stored >= Matching(directory, row'.cursor) != {}
                && forall u <- directory :: directory[u] <= row'.cursor)
  {
    var found := Matching(directory, row.cursor);
    var latest := LatestOf(directory, found);
    if latest.Some? {
      var u :| u in found && directory[u] == latest.value;
      assert u in Matching(directory, latest.value);
    }
  }

  lemma SecondPollSettles(row: Row, directory: Directory)
    ensures Settled(AfterPoll(AfterPoll(row, directory), directory), directory)
  {
    FirstPollFinds(row, directory);
    var row' := AfterPoll(row, directory);
    if !Settled(row, directory) {
      var found := Matching(directory, row'.cursor);
      var u :| u in found;
      assert LatestOf(directory, found) == Some(row'.cursor);
      assert AfterPoll(row', directory) == Row(row'.cursor, found);
    }
  }

  ghost predicate ReportedBy(row: Row, directory: Directory, uuid: Uuid, polls: nat) {
    uuid in SentBy(AfterPolls(row, directory, polls), directory)
  }

  /** From any row, an entry of a directory that no longer changes is reported by some poll exactly when
      it is not older than the cursor and the next poll finds a difference to the row. */
  lemma EventuallyReportedIff(row: Row, directory: Directory, uuid: Uuid)
    requires uuid in directory
    ensures (exists n: nat :: ReportedBy(row, directory, uuid, n))
       <==> directory[uuid] >= row.cursor
            && Differs(row, Matching(directory, row.cursor), LatestOf(directory, Matching(directory, row.cursor)))
  {
    var found := Matching(directory, row.cursor);
    if directory[uuid] >= row.cursor && Differs(row, found, LatestOf(directory, found)) {
      assert ReportedBy(row, directory, uuid, 0);
    } else {
      forall n: nat
        ensures !ReportedBy(row, directory, uuid, n)
      {
        if directory[uuid] < row.cursor {
          CursorNeverMovesBack(row, directory, n);
        } else {
          SilentForever(row, directory, n);
        }
      }
    }
  }

  /** From any row, a change of one entry is reported by some later poll exactly when its stamp is not
      before the cursor and the next poll finds a difference to the row. Any other change waits until the
      directory changes again, and one stamped before the cursor until the entry itself does. */
  lemma ReportedIff(row: Row, directory: Directory, uuid: Uuid, stamp: Timestamp)
    ensures var changed := directory[uuid := stamp];
            var found := Matching(changed, row.cursor);
            (exists n: nat :: ReportedBy(row, changed, uuid, n))
            <==> stamp >= row.cursor && Differs(row, found, LatestOf(changed, found))
  {
    EventuallyReportedIff(row, directory[uuid := stamp], uuid);
  }

  /** From a row that the directory did not differ from before the change, that is to say: exactly when
      the change is stamped after the cursor, or at it for a UUID that is not stored. */
  lemma SettledReportedIff(row: Row, directory: Directory, uuid: Uuid, stamp: Timestamp)
    requires !Differs(row, Matching(directory, row.cursor), LatestOf(directory, Matching(directory, row.cursor)))
    ensures var changed := directory[uuid := stamp];
            (exists n: nat :: ReportedBy(row, changed, uuid, n)) <==> IsNews(row, uuid, stamp)
  {
    hide ReportedBy;
    var changed := directory[uuid := stamp];
    ReportedIff(row, directory, uuid, stamp);
    var found := Matching(changed, row.cursor);
    if stamp > row.cursor {
      assert uuid in found && LatestOf(changed, found).Some?;
    } else if stamp == row.cursor && uuid in row.stored {
      assert uuid in Matching(directory, row.cursor);
      assert changed == directory;
    } else if stamp == row.cursor {
      assert uuid in found;
    }
  }

  /** A second change of entry 1 within the second of the cursor: not reported as things are. */
  lemma SameSecondIsLost(n: nat)
    ensures !ReportedBy(Row(5, {1}), map[1 := 5][1 := 5], 1, n)
  {
    var row, directory := Row(5, {1}), map[1 := 5];
    assert Matching(directory, row.cursor) == {1};
    assert !Differs(row, {1}, LatestOf(directory, {1}));
    SettledReportedIff(row, directory, 1, 5);
  }

  /** It is reported as soon as another entry changes, because the search still finds it. */
  lemma SameSecondIsRescued()
    ensures ReportedBy(Row(5, {1}), map[1 := 5][2 := 6], 1, 0)
  {
    var row, directory := Row(5, {1}), map[1 := 5][2 := 6];
    assert 2 in Matching(directory, 5) && 2 !in {1};
    assert AfterPolls(row, directory, 0) == row;
  }

  /** The same change of entry 1 is reported if the stored set still holds an older entry, 2, as it
      can right after the cursor has moved. */
  lemma SameSecondAfterMove()
    ensures !IsNews(Row(7, {1, 2}), 1, 7)
    ensures ReportedBy(Row(7, {1, 2}), map[1 := 7, 2 := 5][1 := 7], 1, 0)
  {
    var directory := map[1 := 7, 2 := 5];
    assert directory[1 := 7] == directory;
    assert Matching(directory, 7) == {1};
    assert 2 !in {1};
    assert AfterPolls(Row(7, {1, 2}), directory, 0) == Row(7, {1, 2});
  }

  lemma {:induction false} CursorNeverMovesBack(row: Row, directory: Directory, n: nat)
    ensures AfterPolls(row, directory, n).cursor >= row.cursor
  {
    if n > 0 {
      CursorNeverMovesBack(row, directory, n - 1);
      AfterPollAdvances(AfterPolls(row, directory, n - 1), directory);
    }
  }

  lemma {:induction false} SilentForever(row: Row, directory: Directory, n: nat)
    requires Settled(row, directory)
    ensures AfterPolls(row, directory, n) == row
  {
    if n > 0 {
      SilentForever(row, directory, n - 1);
    }
  }

  /** When an answer is cut short, a matching entry it leaves out is reported by some later poll of
      the unchanged directory exactly when it is not older than everything the answer did hold. */
  lemma CutAnswerReportedIff(row: Row, directory: Directory, answer: set<Uuid>, uuid: Uuid)
    requires {} != answer <= Matching(directory, row.cursor)
    requires uuid in Matching(directory, row.cursor) - answer
    ensures var latest := LatestOf(directory, answer);
            var row' := Committed(row, answer, latest);
            (exists n: nat :: ReportedBy(row', directory, uuid, n)) <==> directory[uuid] >= latest.value
  {
    var latest := LatestOf(directory, answer);
    var row' := Committed(row, answer, latest);
    if directory[uuid] >= latest.value {
      assert uuid in Matching(directory, row'.cursor);
      assert ReportedBy(row', directory, uuid, 0);
    } else {
      forall n: nat
        ensures !ReportedBy(row', directory, uuid, n)
      {
        CursorNeverMovesBack(row', directory, n);
      }
    }
  }

  /** An answer cut short that holds entry 2 but not the older entry 1: as things are, entry 1 is never reported. */
  lemma CutAnswerIsLost(n: nat)
    ensures var directory := map[1 := 5, 2 := 7];
            && {2} <= Matching(directory, MICROSOFT_EPOCH)
            && !ReportedBy(Committed(Row(MICROSOFT_EPOCH, {}), {2}, LatestOf(directory, {2})), directory, 1, n)
  {
    var row, directory := Row(MICROSOFT_EPOCH, {}), map[1 := 5, 2 := 7];
    assert 1 in Matching(directory, row.cursor) && 2 in Matching(directory, row.cursor);
    assert LatestOf(directory, {2}) == Some(7);
    CutAnswerReportedIff(row, directory, {2}, 1);
  }
}
