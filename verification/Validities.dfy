/** The choice among the dated values of a MO object and the choice of a primary engagement
    (mo_ldap_import_export/moapi.py:108-258). */
module Validities {
  import opened Wrappers

  /** Microseconds; `datetime.max` is the last instant there is. */
  const DATETIME_MAX: int := 315_537_897_599_999_999

  type Instant = t: int | t <= DATETIME_MAX

  /** One dated value of an engagement; a missing bound leaves that side open. */
  datatype Validity = Validity(uuid: nat, isPrimary: bool, from: Option<Instant>, to: Option<Instant>)

  datatype Error = TooManyCurrent | WaitingForPrimary

  predicate IsCurrent(v: Validity, now: Instant) {
    match (v.from, v.to)
    case (None, None) => true
    case (Some(start), None) => start < now
    case (None, Some(end)) => now < end
    case (Some(start), Some(end)) => start < now < end
  }

  function EndOf(v: Validity): Instant {
    match v.to
    case None => DATETIME_MAX
    case Some(end) => end
  }

  function Current(vs: seq<Validity>, now: Instant): (current: seq<Validity>)
    ensures forall v :: v in current <==> v in vs && IsCurrent(v, now)
  {
    if vs == [] then [] else (if IsCurrent(vs[0], now) then [vs[0]] else []) + Current(vs[1..], now)
  }

  /** The first of the values with the greatest end, as Python's `max` picks it. */
  function LatestEnding(vs: seq<Validity>): (latest: Validity)
    requires vs != []
    ensures latest in vs && forall v <- vs :: EndOf(v) <= EndOf(latest)
  {
    if |vs| == 1 then vs[0] else
      var rest := LatestEnding(vs[1..]);
      if EndOf(rest) <= EndOf(vs[0]) then vs[0] else rest
  }

  function ExtractCurrentOrLatest(vs: seq<Validity>, now: Instant): Result<Option<Validity>, Error> {
    if vs == [] then Ok(None)
    else if |vs| == 1 then Ok(Some(vs[0]))
    else
      var current := Current(vs, now);
      if |current| > 1 then Err(TooManyCurrent)
      else if |current| == 1 then Ok(Some(current[0]))
      else Ok(Some(LatestEnding(vs)))
  }

  function Flatten(objects: seq<seq<Validity>>): seq<Validity> {
    if objects == [] then [] else objects[0] + Flatten(objects[1..])
  }

  function Primaries(vs: seq<Validity>): (primaries: seq<Validity>)
    ensures forall v :: v in primaries <==> v in vs && v.isPrimary
  {
    if vs == [] then [] else (if vs[0].isPrimary then [vs[0]] else []) + Primaries(vs[1..])
  }

  /** The UUID of the primary engagement of a person with these engagements. */
  function GetPrimaryEngagement(objects: seq<seq<Validity>>, now: Instant): Result<Option<nat>, Error> {
    var vs := Flatten(objects);
    if vs == [] then Ok(None)
    else
      var primaries := Primaries(vs);
      if primaries == [] then Err(WaitingForPrimary)
      else match ExtractCurrentOrLatest(primaries, now)
        case Err(e) => Err(e)
        case Ok(None) => Ok(None)
        case Ok(Some(v)) => Ok(Some(v.uuid))
  }

  // ---------------------------------------------------------------------------------------------
  // When the choice fails
  // ---------------------------------------------------------------------------------------------

  ghost predicate TwoCurrent(vs: seq<Validity>, now: Instant) {
    exists i, j :: 0 <= i < j < |vs| && IsCurrent(vs[i], now) && IsCurrent(vs[j], now)
  }

  lemma {:induction false} ManyCurrentAreTwo(vs: seq<Validity>, now: Instant)
    requires |Current(vs, now)| > 1
    ensures TwoCurrent(vs, now)
  {
    var rest := vs[1..];
    if |Current(rest, now)| > 1 {
      ManyCurrentAreTwo(rest, now);
      var i, j :| 0 <= i < j < |rest| && IsCurrent(rest[i], now) && IsCurrent(rest[j], now);
      assert IsCurrent(vs[i + 1], now) && IsCurrent(vs[j + 1], now);
    } else {
      hide Current;
      assert Current(rest, now)[0] in Current(rest, now);
      var j :| 0 <= j < |rest| && IsCurrent(rest[j], now);
      assert IsCurrent(vs[0], now) && IsCurrent(vs[j + 1], now);
    }
  }

  lemma {:induction false} TwoCurrentAreMany(vs: seq<Validity>, now: Instant)
    requires TwoCurrent(vs, now)
    ensures |Current(vs, now)| > 1
  {
    var i, j :| 0 <= i < j < |vs| && IsCurrent(vs[i], now) && IsCurrent(vs[j], now);
    var rest := vs[1..];
    assert rest[j - 1] == vs[j];
    if i > 0 {
      assert rest[i - 1] == vs[i];
      TwoCurrentAreMany(rest, now);
    } else {
      assert rest[j - 1] in Current(rest, now);
    }
  }

  /** For arbitrary values the choice fails exactly when two of them are current. */
  lemma FailsIff(vs: seq<Validity>, now: Instant)
    ensures ExtractCurrentOrLatest(vs, now).Err? <==> TwoCurrent(vs, now)
  {
    if |Current(vs, now)| > 1 {
      ManyCurrentAreTwo(vs, now);
    }
    if TwoCurrent(vs, now) {
      TwoCurrentAreMany(vs, now);
    }
  }

  // ---------------------------------------------------------------------------------------------
  // Disjoint intervals
  // ---------------------------------------------------------------------------------------------

  /** What the choice is, if it does not fail. */
  lemma ChoiceIs(vs: seq<Validity>, now: Instant)
    requires vs != [] && ExtractCurrentOrLatest(vs, now).Ok?
    ensures var choice := ExtractCurrentOrLatest(vs, now).value;
      && choice.Some? && choice.value in vs
      && (|vs| == 1 || IsCurrent(choice.value, now)
          || forall w <- vs :: !IsCurrent(w, now) && EndOf(w) <= EndOf(choice.value))
  {
    hide IsCurrent, EndOf;
    if |Current(vs, now)| == 1 {
      assert Current(vs, now)[0] in Current(vs, now);
    } else {
      assert forall w <- vs :: IsCurrent(w, now) ==> w in Current(vs, now);
    }
  }

  predicate StartsBefore(v: Validity, t: Instant) {
    v.from.None? || v.from.value < t
  }

  predicate NonEmpty(v: Validity) {
    StartsBefore(v, EndOf(v))
  }

  /** Whether the half-open intervals share an instant before `DATETIME_MAX`. */
  predicate Overlap(v: Validity, w: Validity) {
    NonEmpty(v) && NonEmpty(w) && StartsBefore(v, EndOf(w)) && StartsBefore(w, EndOf(v))
  }

  predicate Disjoint(vs: seq<Validity>) {
    && (forall v <- vs :: NonEmpty(v))
    && (forall i, j | 0 <= i < j < |vs| :: !Overlap(vs[i], vs[j]))
  }

  /** The value a choice has to return: the current one or, if there is none, the latest ending. */
  ghost predicate IsChoice(vs: seq<Validity>, now: Instant, v: Validity) {
    && v in vs
    && if exists w <- vs :: IsCurrent(w, now) then IsCurrent(v, now) else forall w <- vs :: EndOf(w) <= EndOf(v)
  }

  lemma ChoiceIsUnique(vs: seq<Validity>, now: Instant, v: Validity, w: Validity)
    requires Disjoint(vs) && IsChoice(vs, now, v) && IsChoice(vs, now, w)
    ensures v == w
  {
    var i :| 0 <= i < |vs| && vs[i] == v;
    var j :| 0 <= j < |vs| && vs[j] == w;
  }

  /** For pairwise disjoint, non-empty intervals the choice never fails, and for two or more of them
      it is the current one, else the one that ends last; there is only one such. */
  lemma ChoiceOfDisjoint(vs: seq<Validity>, now: Instant)
    requires Disjoint(vs) && |vs| >= 2
    ensures var choice := ExtractCurrentOrLatest(vs, now);
            choice.Ok? && choice.value.Some? && IsChoice(vs, now, choice.value.value)
  {
    FailsIff(vs, now);
    var current := Current(vs, now);
    if |current| == 0 {
      assert forall w <- vs :: IsCurrent(w, now) ==> w in current;
    } else {
      assert current[0] in current;
    }
  }

  lemma DisjointPermutes(vs: seq<Validity>, ws: seq<Validity>)
    requires Disjoint(vs) && multiset(vs) == multiset(ws)
    ensures Disjoint(ws)
  {
    forall w <- ws
      ensures w in vs
    {
      assert w in multiset(ws);
    }
    forall i, j | 0 <= i < j < |ws|
      ensures !Overlap(ws[i], ws[j])
    {
      PairPermutes(vs, ws, i, j);
    }
  }

  lemma TakeOut<T>(vs: seq<T>, k: nat)
    requires k < |vs|
    ensures multiset(vs) == multiset(vs[..k]) + multiset{vs[k]} + multiset(vs[k + 1..])
  {
    assert vs == vs[..k] + [vs[k]] + vs[k + 1..];
  }

  /** Two places of a list have their counterparts in two places of any permutation of it. */
  lemma PairPermutes(vs: seq<Validity>, ws: seq<Validity>, i: nat, j: nat)
    requires multiset(vs) == multiset(ws) && i < j < |ws|
    ensures exists k, l :: 0 <= k < |vs| && 0 <= l < |vs| && k != l && vs[k] == ws[i] && vs[l] == ws[j]
  {
    assert ws[i] in multiset(ws);
    var k :| 0 <= k < |vs| && vs[k] == ws[i];
    TakeOut(vs, k);
    TakeOut(ws, i);
    assert ws[j] in multiset(ws[i + 1..]) by {
      assert ws[i + 1..][j - i - 1] == ws[j];
    }
    assert multiset(vs)[ws[j]] == multiset(ws)[ws[j]];
    assert multiset(vs[..k])[ws[j]] + multiset(vs[k + 1..])[ws[j]] > 0;
    if ws[j] in multiset(vs[..k]) {
      var l :| 0 <= l < k && vs[..k][l] == ws[j];
      assert vs[l] == ws[j];
    } else {
      assert ws[j] in multiset(vs[k + 1..]);
      var l :| 0 <= l < |vs| - k - 1 && vs[k + 1..][l] == ws[j];
      assert vs[k + 1 + l] == ws[j];
    }
  }

  lemma ChoicePermutes(vs: seq<Validity>, ws: seq<Validity>, now: Instant)
    requires Disjoint(vs) && multiset(vs) == multiset(ws)
    ensures ExtractCurrentOrLatest(vs, now) == ExtractCurrentOrLatest(ws, now)
  {
    assert |vs| == |multiset(vs)| == |ws|;
    forall v
      ensures v in vs <==> v in ws
    {
      assert v in multiset(vs) <==> v in multiset(ws);
    }
    if |vs| == 1 {
      assert vs[0] in ws;
    } else if |vs| >= 2 {
      DisjointPermutes(vs, ws);
      ChoiceOfDisjoint(vs, now);
      ChoiceOfDisjoint(ws, now);
      var w := ExtractCurrentOrLatest(ws, now).value.value;
      assert IsChoice(vs, now, w);
      ChoiceIsUnique(vs, now, ExtractCurrentOrLatest(vs, now).value.value, w);
    }
  }

  lemma {:induction false} PrimariesPermute(vs: seq<Validity>)
    ensures forall v :: multiset(Primaries(vs))[v] == if v.isPrimary then multiset(vs)[v] else 0
  {
    if vs != [] {
      PrimariesPermute(vs[1..]);
      assert vs == [vs[0]] + vs[1..];
    }
  }

  lemma {:induction false} FlattenHas(objects: seq<seq<Validity>>, v: Validity)
    ensures v in Flatten(objects) <==> exists o <- objects :: v in o
  {
    if objects != [] {
      FlattenHas(objects[1..], v);
      assert forall o :: o in objects <==> o == objects[0] || o in objects[1..];
    }
  }

  /** A primary value of one of the engagements. */
  ghost predicate IsPrimaryValue(objects: seq<seq<Validity>>, v: Validity) {
    v.isPrimary && exists o <- objects :: v in o
  }

  /** A primary value that is current or, if none is, ends last of all primary values. */
  ghost predicate IsPrimaryChoice(objects: seq<seq<Validity>>, now: Instant, v: Validity) {
    && IsPrimaryValue(objects, v)
    && (IsCurrent(v, now) || forall w | IsPrimaryValue(objects, w) :: !IsCurrent(w, now) && EndOf(w) <= EndOf(v))
  }

  /** The list of primary values in the order they come in. */
  lemma PrimaryValues(objects: seq<seq<Validity>>, v: Validity)
    ensures v in Primaries(Flatten(objects)) <==> IsPrimaryValue(objects, v)
  {
    FlattenHas(objects, v);
  }

  lemma NothingFlattened(objects: seq<seq<Validity>>)
    ensures Flatten(objects) == [] <==> forall o <- objects :: o == []
  {
    hide Flatten;
    var vs := Flatten(objects);
    if vs != [] {
      FlattenHas(objects, vs[0]);
    }
    forall o <- objects | o != [] ensures vs != [] {
      FlattenHas(objects, o[0]);
    }
  }

  lemma NoPrimaries(objects: seq<seq<Validity>>)
    ensures Primaries(Flatten(objects)) == [] <==> forall v :: !IsPrimaryValue(objects, v)
  {
    hide Flatten, Primaries, IsPrimaryValue;
    var primaries := Primaries(Flatten(objects));
    forall v { PrimaryValues(objects, v); }
    assert primaries != [] ==> primaries[0] in primaries;
  }

  /** There is no primary engagement exactly if there are no values at all, it is waited for exactly if there
      are values but no primary one, and it cannot be told exactly if two primary values are current. */
  lemma NoPrimaryEngagementIff(objects: seq<seq<Validity>>, now: Instant)
    ensures GetPrimaryEngagement(objects, now) == Ok(None) <==> forall o <- objects :: o == []
    ensures GetPrimaryEngagement(objects, now) == Err(WaitingForPrimary) <==>
      (exists o <- objects :: o != []) && forall v :: !IsPrimaryValue(objects, v)
    ensures GetPrimaryEngagement(objects, now) == Err(TooManyCurrent) <==>
      TwoCurrent(Primaries(Flatten(objects)), now)
  {
    NothingFlattened(objects);
    NoPrimaries(objects);
    var primaries := Primaries(Flatten(objects));
    assert Flatten(objects) == [] ==> primaries == [];
    FailsIff(primaries, now);
    hide Flatten, Primaries, IsPrimaryValue, TwoCurrent, IsCurrent;
    if primaries != [] && ExtractCurrentOrLatest(primaries, now).Ok? {
      ChoiceIs(primaries, now);
    }
    TooManyIsTheError(primaries, now);
    hide ExtractCurrentOrLatest;
  }

  lemma TooManyIsTheError(vs: seq<Validity>, now: Instant)
    ensures ExtractCurrentOrLatest(vs, now).Err? ==> ExtractCurrentOrLatest(vs, now) == Err(TooManyCurrent) && vs != []
  {
    hide Current, LatestEnding;
  }

  /** The primary engagement is that of the current primary value or, if there is none, of one that ends last. */
  lemma PrimaryEngagementIs(objects: seq<seq<Validity>>, now: Instant)
    requires GetPrimaryEngagement(objects, now).Ok? && GetPrimaryEngagement(objects, now).value.Some?
    ensures exists v :: IsPrimaryChoice(objects, now, v) && GetPrimaryEngagement(objects, now) == Ok(Some(v.uuid))
  {
    hide Flatten, Primaries, ExtractCurrentOrLatest, IsPrimaryValue, IsCurrent, EndOf, IsPrimaryChoice;
    var primaries := Primaries(Flatten(objects));
    forall v { PrimaryValues(objects, v); }
    ChoiceIs(primaries, now);
    OnlyOne(objects, primaries, now, ExtractCurrentOrLatest(primaries, now).value.value);
  }

  lemma OnlyOne(objects: seq<seq<Validity>>, primaries: seq<Validity>, now: Instant, v: Validity)
    requires (forall w :: w in primaries <==> IsPrimaryValue(objects, w)) && v in primaries
    requires |primaries| == 1 || IsCurrent(v, now)
      || forall w <- primaries :: !IsCurrent(w, now) && EndOf(w) <= EndOf(v)
    ensures IsPrimaryChoice(objects, now, v)
  {
    hide IsPrimaryValue, IsCurrent;
    if |primaries| == 1 {
      assert primaries[0] == v && forall w <- primaries :: w == v;
    }
  }

  /** The primary engagement depends neither on the order of the engagements nor on the order of the
      values of each, provided the primary values are disjoint as MO promises. */
  lemma PrimaryEngagementPermutes(objects: seq<seq<Validity>>, others: seq<seq<Validity>>, now: Instant)
    requires multiset(Flatten(objects)) == multiset(Flatten(others))
    requires Disjoint(Primaries(Flatten(objects)))
    ensures GetPrimaryEngagement(objects, now) == GetPrimaryEngagement(others, now)
    ensures GetPrimaryEngagement(objects, now) != Err(TooManyCurrent)
  {
    var vs, ws := Flatten(objects), Flatten(others);
    assert |vs| == |multiset(vs)| == |ws|;
    PrimariesPermute(vs);
    PrimariesPermute(ws);
    var ps, qs := Primaries(vs), Primaries(ws);
    assert multiset(ps) == multiset(qs);
    assert |ps| == |multiset(ps)| == |qs|;
    ChoicePermutes(ps, qs, now);
    if |ps| >= 2 {
      ChoiceOfDisjoint(ps, now);
    }
  }

  lemma Associative<T>(a: seq<T>, b: seq<T>, c: seq<T>)
    ensures a + b + c == a + (b + c)
  {
  }

  lemma {:induction false} FlattenConcatenation(a: seq<seq<Validity>>, b: seq<seq<Validity>>)
    ensures Flatten(a + b) == Flatten(a) + Flatten(b)
  {
    hide Flatten;
    if a == [] {
      FlattenNothing();
      assert a + b == b;
    } else {
      var rest := a[1..];
      FlattenConcatenation(rest, b);
      calc {
        Flatten(a + b);
        { Associative([a[0]], rest, b); assert a == [a[0]] + rest; }
        Flatten([a[0]] + (rest + b));
        { FlattenFirst(a[0], rest + b); }
        a[0] + (Flatten(rest) + Flatten(b));
        { Associative(a[0], Flatten(rest), Flatten(b)); }
        a[0] + Flatten(rest) + Flatten(b);
        { FlattenFirst(a[0], rest); assert a == [a[0]] + rest; }
        Flatten(a) + Flatten(b);
      }
    }
  }

  lemma FlattenNothing()
    ensures Flatten([]) == []
  {
  }

  lemma RestPermutes<T>(xs: seq<T>, ys: seq<T>, k: nat)
    requires xs != [] && k < |ys| && ys[k] == xs[0] && multiset(xs) == multiset(ys)
    ensures multiset(xs[1..]) == multiset(ys[..k] + ys[k + 1..])
  {
    TakeOut(ys, k);
    assert xs == [xs[0]] + xs[1..];
    assert multiset(ys[..k] + ys[k + 1..]) == multiset(ys[..k]) + multiset(ys[k + 1..]);
    assert multiset(xs) == multiset{xs[0]} + multiset(xs[1..]);
    var m := multiset(xs);
    assert multiset(xs[1..]) == m - multiset{xs[0]};
    assert multiset(ys[..k]) + multiset(ys[k + 1..]) == m - multiset{xs[0]};
  }

  lemma FlattenFirst(first: seq<Validity>, rest: seq<seq<Validity>>)
    ensures Flatten([first] + rest) == first + Flatten(rest)
  {
    assert ([first] + rest)[1..] == rest;
  }

  lemma {:induction false} FlattenPermutes(objects: seq<seq<Validity>>, others: seq<seq<Validity>>)
    requires multiset(objects) == multiset(others)
    ensures multiset(Flatten(objects)) == multiset(Flatten(others))
    decreases |objects|
  {
    if objects == [] {
      assert |multiset(others)| == 0;
    } else {
      assert objects[0] in multiset(others);
      var k :| 0 <= k < |others| && others[k] == objects[0];
      var before, behind := others[..k], others[k + 1..];
      assert others == before + ([others[k]] + behind);
      RestPermutes(objects, others, k);
      hide Flatten;
      FlattenPermutes(objects[1..], before + behind);
      FlattenConcatenation(before, behind);
      FlattenConcatenation(before, [others[k]] + behind);
      FlattenFirst(objects[0], objects[1..]);
      FlattenFirst(others[k], behind);
      assert objects == [objects[0]] + objects[1..];
    }
  }

  /** Each engagement has the same values, in some order. */
  ghost predicate ValuesPermute(objects: seq<seq<Validity>>, others: seq<seq<Validity>>) {
    |objects| == |others| && forall i :: 0 <= i < |objects| ==> multiset(objects[i]) == multiset(others[i])
  }

  lemma {:induction false} FlattenPermutedValues(objects: seq<seq<Validity>>, others: seq<seq<Validity>>)
    requires ValuesPermute(objects, others)
    ensures multiset(Flatten(objects)) == multiset(Flatten(others))
  {
    if objects != [] {
      FlattenPermutedValues(objects[1..], others[1..]);
    }
  }

  /** So it is for every permutation of the engagements, followed by any permutation of the values of each. */
  lemma PrimaryEngagementIgnoresOrder(objects: seq<seq<Validity>>, permuted: seq<seq<Validity>>,
                                      others: seq<seq<Validity>>, now: Instant)
    requires multiset(objects) == multiset(permuted) && ValuesPermute(permuted, others)
    requires Disjoint(Primaries(Flatten(objects)))
    ensures GetPrimaryEngagement(objects, now) == GetPrimaryEngagement(others, now)
    ensures GetPrimaryEngagement(objects, now) != Err(TooManyCurrent)
  {
    FlattenPermutes(objects, permuted);
    FlattenPermutedValues(permuted, others);
    PrimaryEngagementPermutes(objects, others, now);
  }
}
