/** The allocation of common names (mo_ldap_import_export/usernames.py:18-24, 54-126). */
module CommonName {
  import opened Wrappers
  import opened Decimal

  const MAX_BASE := 60
  const LAST_COUNTER := 999

  /** The words joined by single blanks. */
  function Join(words: seq<string>): string {
    if words == [] then "" else if |words| == 1 then words[0] else words[0] + " " + Join(words[1..])
  }

  /** The pieces of a text between blanks, some of them perhaps empty. */
  function Split(text: string): (words: seq<string>)
    ensures words != [] && forall w <- words :: ' ' !in w
    ensures Join(words) == text
  {
    if text == "" then [""]
    else
      var words := Split(text[1..]);
      if text[0] == ' ' then
        assert ([""] + words)[1..] == words;
        [""] + words
      else
        assert ([[text[0]] + words[0]] + words[1..])[1..] == words[1..];
        [[text[0]] + words[0]] + words[1..]
  }

  /** The first four words of the given name, and the surname as it is. */
  function GeneratePersonName(givenName: string, surname: string): (name: seq<string>)
    ensures 2 <= |name| <= 5 && name[|name| - 1] == surname
    ensures Join(name[..|name| - 1]) <= givenName
    ensures |name| < 5 ==> Join(name[..|name| - 1]) == givenName
    ensures forall i :: 0 <= i < |name| - 1 ==> ' ' !in name[i]
  {
    var words := Split(givenName);
    if |words| > 4 then
      JoinOfPrefix(words, 4);
      assert (words[..4] + [surname])[..4] == words[..4];
      words[..4] + [surname]
    else
      assert (words + [surname])[..|words|] == words;
      words + [surname]
  }

  lemma {:induction false} JoinOfPrefix(words: seq<string>, n: nat)
    requires 1 <= n <= |words|
    ensures Join(words[..n]) <= Join(words)
  {
    if n > 1 {
      JoinOfPrefix(words[1..], n - 1);
      assert words[..n][1..] == words[1..][..n - 1];
    }
  }

  function NonEmpty(words: seq<string>): (kept: seq<string>)
    ensures forall w :: w in kept <==> w in words && w != ""
  {
    if words == [] then [] else (if words[0] == "" then [] else [words[0]]) + NonEmpty(words[1..])
  }

  /** The words that are not empty, in their order. */
  lemma {:induction false} NonEmptyIs(words: seq<string>, w: string)
    ensures NonEmpty([]) == []
    ensures NonEmpty(words + [w]) == if w == "" then NonEmpty(words) else NonEmpty(words) + [w]
  {
    if words != [] {
      assert (words + [w])[1..] == words[1..] + [w];
      NonEmptyIs(words[1..], w);
    }
  }

  /** The name with only the first middle names. */
  function WithMiddleNames(name: seq<string>, count: nat): string
    requires 2 <= |name| && count <= |name| - 2
  {
    Join([name[0]] + name[1..1 + count] + [name[|name| - 1]])
  }

  function Cut(text: string): (cut: string)
    ensures cut <= text && |cut| == if |text| < 60 then |text| else 60
  {
    if |text| <= MAX_BASE then text else text[..MAX_BASE]
  }

  /** The name with as many middle names as fit, from the first one on, or with none if none fit, then cut. */
  ghost predicate IsBase(name: seq<string>, base: string) {
    if |name| < 3 then base == Cut(Join(name))
    else exists count: nat :: IsLongest(name, count) && base == Cut(WithMiddleNames(name, count))
  }

  ghost predicate IsLongest(name: seq<string>, count: nat)
    requires 2 <= |name|
  {
    && count <= |name| - 2
    && (count == 0 || |WithMiddleNames(name, count)| <= MAX_BASE)
    && forall more: nat :: count < more <= |name| - 2 ==> |WithMiddleNames(name, more)| > MAX_BASE
  }

  function Candidate(base: string, counter: nat): string {
    if counter <= 1 then base else base + "_" + Dec(counter)
  }

  /** The first candidate is the base itself; the others are the base, an underscore and the number. */
  lemma CandidateIs(base: string, counter: nat)
    requires 1 <= counter <= LAST_COUNTER
    ensures counter == 1 ==> Candidate(base, counter) == base
    ensures counter > 1 ==> exists digits ::
      Candidate(base, counter) == base + "_" + digits && Number(digits) == counter && digits[..1] != "0"
    ensures |base| <= |Candidate(base, counter)| <= |base| + 4
  {
    if counter > 1 {
      NumberOfDec(counter);
      assert Dec(counter)[..1] == [Dec(counter)[0]];
      assert Candidate(base, counter) == base + "_" + Dec(counter);
    }
  }

  /** The common names of a directory and how it folds characters to compare them. */
  datatype Directory = Directory(names: multiset<string>, fold: char -> char)

  /** Digits and the underscore have no case. */
  ghost predicate ValidDirectory(directory: Directory) {
    forall c :: '0' <= c <= '9' || c == '_' ==> directory.fold(c) == c
  }

  function Folded(fold: char -> char, text: string): string {
    seq(|text|, i requires 0 <= i < |text| => fold(text[i]))
  }

  predicate Exists(directory: Directory, candidate: string) {
    exists n <- directory.names :: Folded(directory.fold, n) == Folded(directory.fold, candidate)
  }

  predicate IsOwn(directory: Directory, current: Option<string>, candidate: string) {
    current.Some? && current.value != "" && Folded(directory.fold, candidate) == Folded(directory.fold, current.value)
  }

  predicate Allowed(directory: Directory, current: Option<string>, candidate: string) {
    IsOwn(directory, current, candidate) || !Exists(directory, candidate)
  }

  /** The candidate is the first of the base and its numbered variants that is allowed. */
  ghost predicate IsFirst(directory: Directory, current: Option<string>, base: string, counter: nat) {
    && 1 <= counter <= LAST_COUNTER && Allowed(directory, current, Candidate(base, counter))
    && forall k: nat :: 1 <= k < counter ==> !Allowed(directory, current, Candidate(base, k))
  }

  lemma BothEnds<T>(xs: seq<T>)
    requires |xs| >= 2
    ensures [xs[0]] + xs[1..|xs| - 1] + [xs[|xs| - 1]] == xs
    ensures 1 + (|xs| - 2) == |xs| - 1
  {
    var k := |xs| - 1;
    assert xs == xs[..k] + [xs[k]];
    assert xs[..k] == [xs[0]] + xs[1..k];
  }

  method Shorten(words: seq<string>) returns (base: string)
    ensures IsBase(NonEmpty(words), base) && |base| <= MAX_BASE
  {
    var name := NonEmpty(words);
    var middleNames := |name| - 2;
    var commonName := Join(name);
    if |name| >= 2 {
      BothEnds(name);
    }
    while |commonName| > MAX_BASE && middleNames > 0
      invariant middleNames <= |name| - 2
      invariant |name| < 3 ==> commonName == Join(name)
      invariant |name| >= 3 ==> 0 <= middleNames && commonName == WithMiddleNames(name, middleNames)
      invariant |name| >= 3 ==>
        forall more: nat :: middleNames < more <= |name| - 2 ==> |WithMiddleNames(name, more)| > MAX_BASE
      decreases middleNames
    {
      middleNames := middleNames - 1;
      commonName := Join([name[0]] + name[1..1 + middleNames] + [name[|name| - 1]]);
    }
    if |name| >= 3 {
      assert IsLongest(name, middleNames);
    }
    base := Cut(commonName);
  }

  /** A common name of at most 64 characters: the first allowed candidate, or none if all 999 are taken by others. */
  method CreateCommonName(words: seq<string>, current: Option<string>, directory: Directory)
    returns (result: Option<string>, ghost base: string)
    ensures IsBase(NonEmpty(words), base)
    ensures result.Some? ==> |result.value| <= 64
    ensures result.Some? ==>
      exists counter: nat :: IsFirst(directory, current, base, counter) && result.value == Candidate(base, counter)
    ensures result.None? <==>
      forall counter: nat :: 1 <= counter <= LAST_COUNTER ==> !Allowed(directory, current, Candidate(base, counter))
  {
    hide IsBase, IsOwn, Exists, Candidate;
    var shortened := Shorten(words);
    base := shortened;
    for counter := 1 to LAST_COUNTER + 1
      invariant forall k: nat :: 1 <= k < counter ==> !Allowed(directory, current, Candidate(base, k))
    {
      var candidate := Candidate(shortened, counter);
      CandidateIs(shortened, counter);
      if IsOwn(directory, current, candidate) {
        assert IsFirst(directory, current, base, counter);
        return Some(candidate), base;
      }
      if !Exists(directory, candidate) {
        assert IsFirst(directory, current, base, counter);
        return Some(candidate), base;
      }
    }
    return None, base;
  }

  /** The common name of an employee. */
  method GenerateCommonName(givenName: string, surname: string, current: Option<string>, directory: Directory)
    returns (result: Option<string>)
    ensures result.Some? ==> |result.value| <= 64 && Allowed(directory, current, result.value)
    ensures result.Some? ==> exists base, counter: nat ::
      IsBase(NonEmpty(GeneratePersonName(givenName, surname)), base) && IsFirst(directory, current, base, counter)
      && result.value == Candidate(base, counter)
    ensures result.None? <==> forall base, counter: nat ::
      IsBase(NonEmpty(GeneratePersonName(givenName, surname)), base) && 1 <= counter <= LAST_COUNTER ==>
        !Allowed(directory, current, Candidate(base, counter))
  {
    ghost var base;
    result, base := CreateCommonName(GeneratePersonName(givenName, surname), current, directory);
    forall other | IsBase(NonEmpty(GeneratePersonName(givenName, surname)), other) ensures other == base {
      BaseIsUnique(NonEmpty(GeneratePersonName(givenName, surname)), base, other);
    }
  }

  ghost predicate SameFolded(fold: char -> char, a: string, b: string) {
    |a| == |b| && forall i :: 0 <= i < |a| ==> fold(a[i]) == fold(b[i])
  }

  /** A candidate is allowed exactly if no name of the directory is the same but for case, or it is the
      person's own name but for case. */
  lemma AllowedIff(directory: Directory, current: Option<string>, candidate: string)
    ensures Allowed(directory, current, candidate) <==>
      || (forall n <- directory.names :: !SameFolded(directory.fold, n, candidate))
      || (exists own :: current == Some(own) && own != "" && SameFolded(directory.fold, own, candidate))
  {
    forall a, b ensures SameFolded(directory.fold, a, b) <==> Folded(directory.fold, a) == Folded(directory.fold, b) {
      FoldedIff(directory.fold, a, b);
    }
    hide SameFolded, Folded;
  }

  lemma FoldedIff(fold: char -> char, a: string, b: string)
    ensures SameFolded(fold, a, b) <==> Folded(fold, a) == Folded(fold, b)
  {
    assert forall i :: 0 <= i < |a| ==> Folded(fold, a)[i] == fold(a[i]);
    assert forall i :: 0 <= i < |b| ==> Folded(fold, b)[i] == fold(b[i]);
  }

  lemma AllMiddleNames(name: seq<string>)
    requires |name| >= 2
    ensures WithMiddleNames(name, |name| - 2) == Join(name)
  {
    hide Join;
    BothEnds(name);
  }

  /** A name that fits is its own base. */
  lemma ShortNameIsKept(name: seq<string>, base: string)
    requires IsBase(name, base) && |Join(name)| <= 60
    ensures base == Join(name)
  {
    hide Join, WithMiddleNames, Cut;
    if |name| >= 3 {
      AllMiddleNames(name);
      var count: nat :| IsLongest(name, count) && base == Cut(WithMiddleNames(name, count));
      assert count == |name| - 2;
    }
  }

  // ---------------------------------------------------------------------------------------------
  // What is chosen is well defined, free for the person and stable
  // ---------------------------------------------------------------------------------------------

  lemma BaseIsUnique(name: seq<string>, base: string, other: string)
    requires IsBase(name, base) && IsBase(name, other)
    ensures base == other
  {
    if |name| >= 3 {
      var m: nat :| IsLongest(name, m) && base == Cut(WithMiddleNames(name, m));
      var n: nat :| IsLongest(name, n) && other == Cut(WithMiddleNames(name, n));
      assert m == n;
    }
  }

  /** Only one base and one candidate can be meant. */
  lemma ChoiceIsUnique(name: seq<string>, base: string, other: string, directory: Directory, current: Option<string>,
                       i: nat, j: nat)
    requires IsBase(name, base) && IsBase(name, other)
    requires IsFirst(directory, current, base, i) && IsFirst(directory, current, other, j)
    ensures base == other && i == j
  {
    BaseIsUnique(name, base, other);
  }

  lemma FoldedSuffix(directory: Directory, base: string, counter: nat)
    requires ValidDirectory(directory) && 1 < counter
    ensures Folded(directory.fold, Candidate(base, counter)) == Folded(directory.fold, base) + "_" + Dec(counter)
  {
    var suffix := "_" + Dec(counter);
    assert Candidate(base, counter) == base + suffix;
    forall i | 0 <= i < |suffix| ensures directory.fold(suffix[i]) == suffix[i] {
      assert suffix[i] in suffix;
    }
    assert Folded(directory.fold, base + suffix) == Folded(directory.fold, base) + suffix;
  }

  /** No two candidates are equal to the directory. */
  lemma CandidatesDiffer(directory: Directory, base: string, i: nat, j: nat)
    requires ValidDirectory(directory) && 1 <= i < j
    ensures Folded(directory.fold, Candidate(base, i)) != Folded(directory.fold, Candidate(base, j))
  {
    FoldedSuffix(directory, base, j);
    if i > 1 {
      FoldedSuffix(directory, base, i);
      var folded := Folded(directory.fold, base);
      if Folded(directory.fold, Candidate(base, i)) == Folded(directory.fold, Candidate(base, j)) {
        assert (folded + "_" + Dec(i))[|folded| + 1..] == Dec(i) && (folded + "_" + Dec(j))[|folded| + 1..] == Dec(j);
        DecIsInjective(i, j);
      }
    }
  }

  /** The directory after an entry was given a name, in place of its old one if it had one. */
  function Renamed(directory: Directory, current: Option<string>, name: string): Directory {
    var others := if current.Some? then directory.names - multiset{current.value} else directory.names;
    directory.(names := others + multiset{name})
  }

  /** Generating the name again after the rename gives the same name. */
  lemma RegeneratingKeepsName(directory: Directory, current: Option<string>, base: string, counter: nat)
    requires ValidDirectory(directory) && IsFirst(directory, current, base, counter) && base != ""
    ensures var name := Candidate(base, counter); IsFirst(Renamed(directory, current, name), Some(name), base, counter)
  {
    var name := Candidate(base, counter);
    var renamed := Renamed(directory, current, name);
    forall k: nat | 1 <= k < counter ensures !Allowed(renamed, Some(name), Candidate(base, k)) {
      CandidatesDiffer(directory, base, k, counter);
      assert !Allowed(directory, current, Candidate(base, k));
      var n :| n in directory.names && Folded(directory.fold, n) == Folded(directory.fold, Candidate(base, k));
      assert n in renamed.names;
    }
  }
}
