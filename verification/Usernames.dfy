/** The generation of usernames, by combinations and by numbered letters
    (mo_ldap_import_export/environments/generate_username.py:33-168, 174-514). */
module Usernames {
  import opened Wrappers
  import opened Decimal

  type Employee = nat

  predicate IsLetter(c: char) {
    'a' <= c <= 'z'
  }

  function LowerChar(c: char): char {
    if 'A' <= c <= 'Z' then 'a' + (c - 'A') else c
  }

  function Lower(text: string): string {
    seq(|text|, i requires 0 <= i < |text| => LowerChar(text[i]))
  }

  // ---------------------------------------------------------------------------------------------
  // _create_from_combi
  // ---------------------------------------------------------------------------------------------

  /** What the settings allow in a combination, and the digits beyond. */
  predicate IsCombiChar(c: char) {
    c in {'F', 'L', 'X'} || '1' <= c <= '9'
  }

  datatype Group = Group(key: char, count: nat)

  /** The runs of equal characters. */
  function Runs(combi: string): (groups: seq<Group>)
    ensures forall g <- groups :: g.count > 0
    ensures combi != "" ==> groups != [] && groups[|groups| - 1].key == combi[|combi| - 1]
  {
    if combi == "" then []
    else
      var last := combi[|combi| - 1];
      var groups := Runs(combi[..|combi| - 1]);
      if groups != [] && groups[|groups| - 1].key == last then
        groups[..|groups| - 1] + [Group(last, groups[|groups| - 1].count + 1)]
      else groups + [Group(last, 1)]
  }

  /** The part of the name a character stands for. */
  function CharToNamePart(parts: seq<string>, key: char): Option<string>
    requires IsCombiChar(key) && key != 'X'
  {
    if |parts| < 2 then None
    else if key == 'F' then Some(parts[0])
    else if key == 'L' then Some(parts[|parts| - 1])
    else
      var index := (key - '1') as nat;
      if index < |parts| - 2 then Some(parts[1 + index]) else None
  }

  function GroupToString(parts: seq<string>, g: Group): Option<string>
    requires IsCombiChar(g.key)
  {
    if g.key == 'X' then Some(seq(g.count, _ => 'X'))
    else match CharToNamePart(parts, g.key)
      case None => None
      case Some(part) => if g.count > |part| then None else Some(Lower(part)[..g.count])
  }

  function Concatenated(parts: seq<string>, groups: seq<Group>): Option<string>
    requires forall g <- groups :: IsCombiChar(g.key)
  {
    if groups == [] then Some("")
    else
      var rest := Concatenated(parts, groups[..|groups| - 1]);
      var last := GroupToString(parts, groups[|groups| - 1]);
      if rest.Some? && last.Some? then Some(rest.value + last.value) else None
  }

  lemma {:induction false} RunsOfCombi(combi: string)
    requires forall c <- combi :: IsCombiChar(c)
    ensures forall g <- Runs(combi) :: IsCombiChar(g.key)
  {
    if combi != "" {
      RunsOfCombi(combi[..|combi| - 1]);
    }
  }

  function CreateFromCombi(parts: seq<string>, combi: string): Option<string>
    requires forall c <- combi :: IsCombiChar(c)
  {
    RunsOfCombi(combi);
    Concatenated(parts, Runs(combi))
  }

  /** How far a position is into its run. */
  function Offset(combi: string, i: nat): (k: nat)
    requires i < |combi|
    ensures k <= i
  {
    if i == 0 || combi[i - 1] != combi[i] then 0 else Offset(combi, i - 1) + 1
  }

  /** The character at a place of the part a key stands for, if there is one. */
  function NthChar(parts: seq<string>, key: char, k: nat): Option<char>
    requires IsCombiChar(key)
  {
    if key == 'X' then Some('X')
    else match CharToNamePart(parts, key)
      case None => None
      case Some(part) => if k < |part| then Some(LowerChar(part[k])) else None
  }

  /** What one position of a combination comes to: an X, the next character of the part it stands for, or nothing. */
  function CharAt(parts: seq<string>, combi: string, i: nat): Option<char>
    requires i < |combi| && IsCombiChar(combi[i])
  {
    NthChar(parts, combi[i], Offset(combi, i))
  }

  lemma {:induction false} OffsetOfPrefix(combi: string, n: nat, i: nat)
    requires i < n <= |combi|
    ensures Offset(combi[..n], i) == Offset(combi, i)
  {
    if i > 0 {
      OffsetOfPrefix(combi, n, i - 1);
    }
  }

  /** The last run is as long as its last position says. */
  lemma {:induction false} LastRun(combi: string)
    requires combi != ""
    ensures var groups := Runs(combi); groups[|groups| - 1].count == Offset(combi, |combi| - 1) + 1
  {
    var n := |combi| - 1;
    if n > 0 {
      LastRun(combi[..n]);
      OffsetOfPrefix(combi, n, n - 1);
    }
  }

  lemma ConcatenatedLast(parts: seq<string>, groups: seq<Group>, g: Group)
    requires (forall h <- groups :: IsCombiChar(h.key)) && IsCombiChar(g.key)
    ensures var rest, last := Concatenated(parts, groups), GroupToString(parts, g);
      Concatenated(parts, groups + [g]) == if rest.Some? && last.Some? then Some(rest.value + last.value) else None
  {
    assert (groups + [g])[..|groups|] == groups;
  }

  lemma GrownGroup(parts: seq<string>, key: char, count: nat)
    requires IsCombiChar(key)
    ensures var group, next := GroupToString(parts, Group(key, count)), NthChar(parts, key, count);
      GroupToString(parts, Group(key, count + 1)) ==
        if group.Some? && next.Some? then Some(group.value + [next.value]) else None
  {
    if key == 'X' {
      var xs := seq(count, _ => 'X');
      assert GroupToString(parts, Group(key, count + 1)).value == xs + ['X'];
    } else if CharToNamePart(parts, key).Some? {
      var part := CharToNamePart(parts, key).value;
      if count < |part| {
        assert Lower(part)[..count + 1] == Lower(part)[..count] + [LowerChar(part[count])];
      }
    }
  }

  /** The last position adds one character, or spoils everything. */
  lemma CombiStep(parts: seq<string>, combi: string)
    requires combi != "" && forall c <- combi :: IsCombiChar(c)
    ensures var n := |combi| - 1;
      var rest, last := CreateFromCombi(parts, combi[..n]), CharAt(parts, combi, n);
      CreateFromCombi(parts, combi) == if rest.Some? && last.Some? then Some(rest.value + [last.value]) else None
  {
    hide Concatenated, GroupToString, NthChar;
    var n := |combi| - 1;
    var before := Runs(combi[..n]);
    RunsOfCombi(combi[..n]);
    RunsOfCombi(combi);
    LastRun(combi);
    if before != [] && before[|before| - 1].key == combi[n] {
      var init, last := before[..|before| - 1], before[|before| - 1];
      assert before == init + [last];
      assert forall h <- init :: h in before;
      ConcatenatedLast(parts, init, last);
      ConcatenatedLast(parts, init, Group(combi[n], last.count + 1));
      GrownGroup(parts, combi[n], last.count);
      assert forall a: string, b: string, c: string :: (a + b) + c == a + (b + c);
    } else {
      ConcatenatedLast(parts, before, Group(combi[n], 1));
      NoGroup(parts, combi[n]);
      GrownGroup(parts, combi[n], 0);
      assert forall c: string :: "" + c == c;
    }
  }

  lemma NoGroup(parts: seq<string>, key: char)
    requires IsCombiChar(key)
    ensures GroupToString(parts, Group(key, 0)) ==
      if key == 'X' || CharToNamePart(parts, key).Some? then Some("") else None
    ensures GroupToString(parts, Group(key, 0)).None? ==> NthChar(parts, key, 0).None?
  {
    if key == 'X' {
      assert GroupToString(parts, Group(key, 0)).value == "";
    }
  }

  /** A combination gives a username exactly if every position does, and then character by character. */
  lemma {:induction false} CombiIs(parts: seq<string>, combi: string)
    requires forall c <- combi :: IsCombiChar(c)
    ensures CreateFromCombi(parts, combi).Some? <==> forall i :: 0 <= i < |combi| ==> CharAt(parts, combi, i).Some?
    ensures CreateFromCombi(parts, combi).Some? ==>
      && |CreateFromCombi(parts, combi).value| == |combi|
      && forall i :: 0 <= i < |combi| ==> CharAt(parts, combi, i) == Some(CreateFromCombi(parts, combi).value[i])
  {
    hide CreateFromCombi, CharAt;
    if combi == "" {
      EmptyCombi(parts);
    } else {
      var n := |combi| - 1;
      CombiIs(parts, combi[..n]);
      CombiStep(parts, combi);
      forall i | 0 <= i < n ensures CharAt(parts, combi[..n], i) == CharAt(parts, combi, i) {
        CharOfPrefix(parts, combi, n, i);
      }
    }
  }

  /** Which part of the name a character stands for: F for the first, L for the last, and a digit for the
      middle name of that number. A name of fewer than two parts has none. */
  ghost predicate StandsFor(parts: seq<string>, key: char, p: nat) {
    && p < |parts| && |parts| >= 2
    && match key
       case 'F' => p == 0
       case 'L' => p == |parts| - 1
       case _ => '1' <= key <= '9' && p == (key - '0') as nat && p < |parts| - 1
  }

  /** Exactly `k` equal characters come right before the position. */
  ghost predicate IsOffset(combi: string, i: nat, k: nat)
    requires i < |combi|
  {
    k <= i && (forall j :: i - k <= j <= i ==> combi[j] == combi[i]) && (k < i ==> combi[i - k - 1] != combi[i])
  }

  ghost predicate IsLowered(c: char, from: char) {
    if 'A' <= from <= 'Z' then c as int == from as int + 32 else c == from
  }

  /** A position is an X, or the next character of the part it stands for, lowered. */
  ghost predicate IsAt(parts: seq<string>, combi: string, i: nat, c: char)
    requires i < |combi|
  {
    if combi[i] == 'X' then c == 'X'
    else exists p: nat, k: nat ::
      StandsFor(parts, combi[i], p) && IsOffset(combi, i, k) && k < |parts[p]| && IsLowered(c, parts[p][k])
  }

  lemma {:induction false} OffsetIs(combi: string, i: nat, k: nat)
    requires i < |combi|
    ensures IsOffset(combi, i, k) <==> k == Offset(combi, i)
  {
    if i > 0 && combi[i - 1] == combi[i] {
      OffsetIs(combi, i - 1, Offset(combi, i - 1));
      if 0 < k <= i {
        OffsetIs(combi, i - 1, k - 1);
      }
      assert IsOffset(combi, i, Offset(combi, i));
    }
    if IsOffset(combi, i, k) && k > 0 {
      assert combi[i - 1] == combi[i];
    }
  }

  lemma CharAtIff(parts: seq<string>, combi: string, i: nat, c: char)
    requires i < |combi| && IsCombiChar(combi[i])
    ensures CharAt(parts, combi, i) == Some(c) <==> IsAt(parts, combi, i, c)
  {
    hide Offset, IsOffset;
    var key, offset := combi[i], Offset(combi, i);
    OffsetIs(combi, i, offset);
    if key != 'X' {
      forall k: nat | IsOffset(combi, i, k) ensures k == offset { OffsetIs(combi, i, k); }
      if p: nat :| StandsFor(parts, key, p) {
        assert forall q: nat :: StandsFor(parts, key, q) ==> q == p;
        assert CharToNamePart(parts, key) == Some(parts[p]);
      } else {
        assert !StandsFor(parts, key, 0) && (parts != [] ==> !StandsFor(parts, key, |parts| - 1));
        if '1' <= key <= '9' {
          assert !StandsFor(parts, key, (key - '0') as nat);
        }
      }
    }
  }

  ghost predicate IsPattern(parts: seq<string>, combi: string, pattern: string) {
    |pattern| == |combi| && forall i :: 0 <= i < |combi| ==> IsAt(parts, combi, i, pattern[i])
  }

  /** A combination gives exactly the text that has, position by position, the next character of the first
      name for an F, of the last for an L and of a middle name for its number; so it gives none exactly if
      such a name is missing or used up. */
  lemma CombiIff(parts: seq<string>, combi: string, pattern: string)
    requires forall c <- combi :: IsCombiChar(c)
    ensures CreateFromCombi(parts, combi) == Some(pattern) <==> IsPattern(parts, combi, pattern)
  {
    CombiIs(parts, combi);
    hide CreateFromCombi, CharAt, IsAt;
    if CreateFromCombi(parts, combi).Some? {
      var username := CreateFromCombi(parts, combi).value;
      forall i | 0 <= i < |combi| ensures IsAt(parts, combi, i, username[i]) {
        CharAtIff(parts, combi, i, username[i]);
      }
    }
    if IsPattern(parts, combi, pattern) {
      forall i | 0 <= i < |combi| ensures CharAt(parts, combi, i) == Some(pattern[i]) {
        CharAtIff(parts, combi, i, pattern[i]);
      }
      assert CreateFromCombi(parts, combi).value == pattern;
    }
  }

  lemma CharOfPrefix(parts: seq<string>, combi: string, n: nat, i: nat)
    requires i < n <= |combi| && IsCombiChar(combi[i])
    ensures CharAt(parts, combi[..n], i) == CharAt(parts, combi, i)
  {
    OffsetOfPrefix(combi, n, i);
  }

  lemma EmptyCombi(parts: seq<string>)
    ensures CreateFromCombi(parts, "") == Some("")
  {
  }

  // ---------------------------------------------------------------------------------------------
  // _create_username
  // ---------------------------------------------------------------------------------------------

  /** `prepare` applies the configured replacements to a name and lowers it; forbidden names are folded. */
  datatype Settings = Settings(
    prepare: string -> string, removeVowels: bool, forbidden: set<string>, combinations: seq<string>,
    disallowMoUsernames: bool, reuseOldUsernames: bool)

  /** The login names LDAP has, folded, and the employees each name is reserved for in MO. */
  datatype Taken = Taken(ldap: set<string>, mo: map<string, set<Employee>>)

  predicate ValidSettings(settings: Settings) {
    forall combi <- settings.combinations, c <- combi :: c in {'F', 'L', '1', '2', '3', 'X'}
  }

  function OnlyLetters(text: string): (letters: string)
    ensures forall c <- letters :: IsLetter(c)
  {
    if text == "" then "" else (if IsLetter(text[0]) then [text[0]] else "") + OnlyLetters(text[1..])
  }

  function WithoutVowels(text: string): (rest: string)
    ensures forall c <- rest :: c in text && c !in "aeiou"
  {
    if text == "" then "" else (if text[0] in "aeiou" then "" else [text[0]]) + WithoutVowels(text[1..])
  }

  /** What is left of a prepared name. */
  function Cleaned(text: string, removeVowels: bool): (fixed: string)
    ensures forall c <- fixed :: IsLetter(c)
  {
    if removeVowels then WithoutVowels(OnlyLetters(text)) else OnlyLetters(text)
  }

  lemma {:induction false} OneMoreLetter(text: string, c: char)
    ensures OnlyLetters(text + [c]) == OnlyLetters(text) + if IsLetter(c) then [c] else ""
  {
    if text != "" {
      assert (text + [c])[1..] == text[1..] + [c];
      OneMoreLetter(text[1..], c);
    }
  }

  lemma {:induction false} OneMoreWithoutVowels(text: string, c: char)
    ensures WithoutVowels(text + [c]) == WithoutVowels(text) + if c in "aeiou" then "" else [c]
  {
    if text != "" {
      assert (text + [c])[1..] == text[1..] + [c];
      OneMoreWithoutVowels(text[1..], c);
    }
  }

  /** Cleaning goes through a name once, keeping the letters a to z, or those of them that are consonants or y. */
  lemma CleanedIs(text: string, c: char)
    ensures Cleaned("", true) == Cleaned("", false) == ""
    ensures Cleaned(text + [c], false) == Cleaned(text, false) + if 'a' <= c <= 'z' then [c] else ""
    ensures Cleaned(text + [c], true) ==
      Cleaned(text, true) + if 'a' <= c <= 'z' && c !in "aeiou" then [c] else ""
  {
    OneMoreLetter(text, c);
    OneMoreWithoutVowels(OnlyLetters(text), c);
    assert OnlyLetters(text) + "" == OnlyLetters(text);
  }

  function FixName(settings: Settings, part: string, removeVowels: bool): (fixed: string)
    ensures forall c <- fixed :: IsLetter(c)
  {
    Cleaned(settings.prepare(part), removeVowels)
  }

  function NameFixer(settings: Settings, parts: seq<string>): (clean: seq<string>)
    ensures |clean| == |parts| && forall part <- clean, c <- part :: IsLetter(c)
  {
    seq(|parts|, i requires 0 <= i < |parts| => FixName(settings, parts[i], settings.removeVowels && i > 0))
  }

  /** Vowels stay in the first name, and in the others unless they are to go. */
  lemma NameFixerIs(settings: Settings, parts: seq<string>, i: nat)
    requires i < |parts|
    ensures i == 0 || !settings.removeVowels ==>
      NameFixer(settings, parts)[i] == Cleaned(settings.prepare(parts[i]), false)
    ensures i > 0 && settings.removeVowels ==>
      NameFixer(settings, parts)[i] == Cleaned(settings.prepare(parts[i]), true)
  {
  }

  predicate LdapAllows(taken: Taken, username: string) {
    Lower(username) !in taken.ldap
  }

  predicate MoAllows(settings: Settings, taken: Taken, employee: Employee, username: string) {
    !settings.disallowMoUsernames || username !in taken.mo
    || (settings.reuseOldUsernames && taken.mo[username] == {employee})
  }

  predicate Allowed(settings: Settings, taken: Taken, employee: Employee, username: string) {
    LdapAllows(taken, username) && MoAllows(settings, taken, employee, username)
  }

  /** A username is allowed exactly if it is no login name in any case, and, should names in MO count,
      reserved for nobody, or for nobody but the employee where old names may be used again. */
  lemma AllowedIff(settings: Settings, taken: Taken, employee: Employee, username: string)
    ensures Allowed(settings, taken, employee, username) <==>
      && (forall name <- taken.ldap :: !SameLowered(username, name))
      && (settings.disallowMoUsernames && username in taken.mo ==>
        settings.reuseOldUsernames && employee in taken.mo[username] && |taken.mo[username]| == 1)
  {
    assert forall name :: SameLowered(username, name) <==> name == Lower(username);
    hide Lower;
    if username in taken.mo && employee in taken.mo[username] && |taken.mo[username]| == 1 {
      assert |taken.mo[username] - {employee}| == 0;
      assert taken.mo[username] == {employee};
    }
  }

  /** The second text is the first, lowered. */
  ghost predicate SameLowered(text: string, lowered: string) {
    |text| == |lowered| && forall i :: 0 <= i < |text| ==> IsLowered(lowered[i], text[i])
  }

  lemma {:induction false} WithoutXIs(text: string, c: char)
    ensures WithoutX("") == "" && WithoutX(text + [c]) == WithoutX(text) + if c == 'X' then "" else [c]
  {
    if text != "" {
      assert (text + [c])[1..] == text[1..] + [c];
      WithoutXIs(text[1..], c);
    }
  }

  function Replace(username: string, counter: nat): string
    requires counter < 10
  {
    seq(|username|, i requires 0 <= i < |username| => if username[i] == 'X' then Digit(counter) else username[i])
  }

  function WithoutX(username: string): string {
    if username == "" then "" else (if username[0] == 'X' then "" else [username[0]]) + WithoutX(username[1..])
  }

  /** The usernames to try for a pattern, in order. */
  function Permutations(username: string): (usernames: seq<string>)
    ensures |usernames| == if 'X' in username then 8 else 1
    ensures forall i :: 0 <= i < |usernames| ==> |usernames[i]| == |username|
    ensures forall i, j :: 0 <= i < |usernames| && 0 <= j < |username| ==>
      usernames[i][j] == if username[j] == 'X' then '2' + i as char else username[j]
  {
    if 'X' in username then seq(8, i requires 0 <= i < 8 => Replace(username, i + 2)) else [username]
  }

  function OfCombination(settings: Settings, clean: seq<string>, combi: string): seq<string>
    requires forall c <- combi :: IsCombiChar(c)
  {
    match CreateFromCombi(clean, combi)
    case None => []
    case Some(username) => if WithoutX(username) in settings.forbidden then [] else Permutations(username)
  }

  ghost predicate IsFirstAllowed(settings: Settings, taken: Taken, employee: Employee, candidates: seq<string>,
                                 i: nat)
  {
    && i < |candidates| && Allowed(settings, taken, employee, candidates[i])
    && forall j :: 0 <= j < i ==> !Allowed(settings, taken, employee, candidates[j])
  }

  ghost predicate NoneAllowed(settings: Settings, taken: Taken, employee: Employee, candidates: seq<string>) {
    forall u <- candidates :: !Allowed(settings, taken, employee, u)
  }

  method FirstAllowed(settings: Settings, taken: Taken, employee: Employee, usernames: seq<string>)
    returns (first: Option<nat>)
    ensures match first
            case None => NoneAllowed(settings, taken, employee, usernames)
            case Some(k) => IsFirstAllowed(settings, taken, employee, usernames, k)
  {
    for k := 0 to |usernames|
      invariant forall j :: 0 <= j < k ==> !Allowed(settings, taken, employee, usernames[j])
    {
      if LdapAllows(taken, usernames[k]) && MoAllows(settings, taken, employee, usernames[k]) {
        return Some(k);
      }
    }
    return None;
  }

  /** The username to try for a combination and a digit: the pattern of the combination with the digit for
      every X, unless the pattern without its X is forbidden. A pattern without an X is tried once. */
  ghost predicate IsTry(settings: Settings, clean: seq<string>, combi: string, digit: nat, username: string) {
    exists pattern :: IsPattern(clean, combi, pattern) && WithoutX(pattern) !in settings.forbidden
      && IsFilledIn(pattern, digit, username)
  }

  ghost predicate IsFilledIn(pattern: string, digit: nat, username: string) {
    && 2 <= digit <= (if 'X' in pattern then 9 else 2) && |username| == |pattern|
    && forall i :: 0 <= i < |pattern| ==>
      username[i] == if pattern[i] == 'X' then '0' + digit as char else pattern[i]
  }

  lemma TryIff(settings: Settings, clean: seq<string>, combi: string, digit: nat, username: string)
    requires forall c <- combi :: IsCombiChar(c)
    ensures IsTry(settings, clean, combi, digit, username) <==>
      var usernames := OfCombination(settings, clean, combi);
      2 <= digit < 2 + |usernames| && usernames[digit - 2] == username
  {
    hide CreateFromCombi, IsPattern, WithoutX;
    if CreateFromCombi(clean, combi).Some? {
      CombiIff(clean, combi, CreateFromCombi(clean, combi).value);
    }
    forall pattern | IsPattern(clean, combi, pattern) ensures CreateFromCombi(clean, combi) == Some(pattern) {
      CombiIff(clean, combi, pattern);
    }
    if CreateFromCombi(clean, combi).Some? {
      var pattern := CreateFromCombi(clean, combi).value;
      FilledIn(pattern, digit, username);
    }
  }

  lemma FilledIn(pattern: string, digit: nat, username: string)
    ensures IsFilledIn(pattern, digit, username) <==>
      2 <= digit < 2 + |Permutations(pattern)| && Permutations(pattern)[digit - 2] == username
  {
    var usernames := Permutations(pattern);
    hide Permutations;
    if IsFilledIn(pattern, digit, username) {
      assert usernames[digit - 2] == username;
    }
  }

  /** A username comes before another if its combination does, or its digit for the same combination. */
  predicate Earlier(m: nat, c: nat, n: nat, d: nat) {
    m < n || (m == n && c < d)
  }

  /** No username that comes before the digit of the combination is allowed. */
  ghost predicate NoneBefore(settings: Settings, taken: Taken, employee: Employee, clean: seq<string>, n: nat, d: nat) {
    forall m: nat, c: nat, u | m < |settings.combinations| && Earlier(m, c, n, d) ::
      IsTry(settings, clean, settings.combinations[m], c, u) ==> !Allowed(settings, taken, employee, u)
  }

  ghost predicate IsFirstTry(settings: Settings, taken: Taken, employee: Employee, clean: seq<string>, n: nat, d: nat,
                             username: string)
  {
    && n < |settings.combinations| && IsTry(settings, clean, settings.combinations[n], d, username)
    && Allowed(settings, taken, employee, username) && NoneBefore(settings, taken, employee, clean, n, d)
  }

  lemma OneMoreCombination(settings: Settings, taken: Taken, employee: Employee, clean: seq<string>, n: nat)
    requires ValidSettings(settings) && n < |settings.combinations|
    requires NoneBefore(settings, taken, employee, clean, n, 0)
    ensures var usernames := OfCombination(settings, clean, settings.combinations[n]);
      && (NoneAllowed(settings, taken, employee, usernames) ==>
            NoneBefore(settings, taken, employee, clean, n + 1, 0))
      && (forall k: nat :: IsFirstAllowed(settings, taken, employee, usernames, k) ==>
            IsFirstTry(settings, taken, employee, clean, n, k + 2, usernames[k]))
  {
    hide Allowed, OfCombination, IsTry;
    var combi := settings.combinations[n];
    var usernames := OfCombination(settings, clean, combi);
    forall c: nat, u | IsTry(settings, clean, combi, c, u)
      ensures 2 <= c < 2 + |usernames| && usernames[c - 2] == u
    {
      TryIff(settings, clean, combi, c, u);
    }
    forall k: nat | k < |usernames| ensures IsTry(settings, clean, combi, k + 2, usernames[k]) {
      TryIff(settings, clean, combi, k + 2, usernames[k]);
    }
  }

  /** The first allowed of all usernames to try, in the order of the combinations and then of the digits;
      none exactly if none is allowed. */
  method CreateUsername(settings: Settings, taken: Taken, employee: Employee, name: seq<string>)
    returns (result: Option<string>)
    requires ValidSettings(settings)
    ensures result.None? <==> forall n: nat, d: nat, u |
      n < |settings.combinations| && IsTry(settings, NameFixer(settings, name), settings.combinations[n], d, u) ::
        !Allowed(settings, taken, employee, u)
    ensures result.Some? ==> exists n: nat, d: nat ::
      IsFirstTry(settings, taken, employee, NameFixer(settings, name), n, d, result.value)
  {
    hide Allowed, Permutations, CreateFromCombi, WithoutX, NameFixer, IsTry;
    var clean := NameFixer(settings, name);
    for n := 0 to |settings.combinations|
      invariant NoneBefore(settings, taken, employee, clean, n, 0)
    {
      OneMoreCombination(settings, taken, employee, clean, n);
      var username := CreateFromCombi(clean, settings.combinations[n]);
      if username.None? || WithoutX(username.value) in settings.forbidden {
        continue;
      }
      var permutations := Permutations(username.value);
      var k := FirstAllowed(settings, taken, employee, permutations);
      if k.Some? {
        return Some(permutations[k.value]);
      }
    }
    return None;
  }

  /** Every username to try consists of letters and the digits 2 to 9, and is as long as its combination. */
  lemma CandidateIs(settings: Settings, parts: seq<string>, combi: string, digit: nat, username: string)
    requires forall c <- combi :: IsCombiChar(c)
    requires IsTry(settings, NameFixer(settings, parts), combi, digit, username)
    ensures |username| == |combi| && forall c <- username :: IsLetter(c) || '2' <= c <= '9'
  {
    var clean := NameFixer(settings, parts);
    TryIff(settings, clean, combi, digit, username);
    CombiIs(clean, combi);
    hide IsTry, CreateFromCombi, CharAt;
    var pattern := CreateFromCombi(clean, combi).value;
    forall i | 0 <= i < |pattern| ensures pattern[i] == 'X' || IsLetter(pattern[i]) {
      PartIsClean(settings, parts, combi, i);
    }
  }

  lemma PartIsClean(settings: Settings, parts: seq<string>, combi: string, i: nat)
    requires i < |combi| && IsCombiChar(combi[i]) && CharAt(NameFixer(settings, parts), combi, i).Some?
    ensures var c := CharAt(NameFixer(settings, parts), combi, i).value; c == 'X' || IsLetter(c)
  {
    if combi[i] != 'X' {
      var part, k := CharToNamePart(NameFixer(settings, parts), combi[i]).value, Offset(combi, i);
      assert part in NameFixer(settings, parts) && part[k] in part;
    }
  }

  // ---------------------------------------------------------------------------------------------
  // _extract_letters
  // ---------------------------------------------------------------------------------------------

  datatype LettersError = NoFirstLetter | TooFewConsonants

  /** How names are split and lowered. */
  datatype Language = Language(isSpace: char -> bool, lower: string -> string)

  predicate IsSeparator(language: Language, c: char) {
    c == '-' || c == '+' || language.isSpace(c)
  }

  function SplitName(language: Language, part: string): (pieces: seq<string>)
    ensures pieces != []
  {
    if part == "" then [""]
    else
      var pieces := SplitName(language, part[1..]);
      if IsSeparator(language, part[0]) then [""] + pieces else [[part[0]] + pieces[0]] + pieces[1..]
  }

  function Pieces(language: Language, name: seq<string>): (pieces: seq<string>)
    ensures |pieces| >= |name|
  {
    if name == [] then [] else Pieces(language, name[..|name| - 1]) + SplitName(language, name[|name| - 1])
  }

  /** The pieces with the separators between them again. */
  ghost function Rejoined(pieces: seq<string>, separators: string): string
    requires |pieces| == |separators| + 1
  {
    if separators == "" then pieces[0]
    else pieces[0] + [separators[0]] + Rejoined(pieces[1..], separators[1..])
  }

  ghost predicate IsSplit(language: Language, part: string, pieces: seq<string>, separators: string) {
    && |pieces| == |separators| + 1 && Rejoined(pieces, separators) == part
    && (forall piece <- pieces, c <- piece :: c != '-' && c != '+' && !language.isSpace(c))
    && forall c <- separators :: c == '-' || c == '+' || language.isSpace(c)
  }

  lemma SplitMore(language: Language, c: char, part: string, pieces: seq<string>, separators: string)
    requires IsSplit(language, part, pieces, separators)
    ensures IsSeparator(language, c) ==> IsSplit(language, [c] + part, [""] + pieces, [c] + separators)
    ensures !IsSeparator(language, c) ==>
      IsSplit(language, [c] + part, [[c] + pieces[0]] + pieces[1..], separators)
  {
    assert ([""] + pieces)[1..] == pieces && ([c] + separators)[1..] == separators;
    var first := [[c] + pieces[0]] + pieces[1..];
    assert first[1..] == pieces[1..];
    forall d <- first[0] ensures d == c || d in pieces[0] {}
    assert Rejoined(first, separators) == [c] + Rejoined(pieces, separators);
  }

  /** A name is split at every separator, and nowhere else. */
  lemma {:induction false} SplitIs(language: Language, part: string)
    ensures exists separators :: IsSplit(language, part, SplitName(language, part), separators)
  {
    if part == "" {
      assert SplitName(language, part) == [""] && Rejoined([""], "") == part;
      assert IsSplit(language, part, SplitName(language, part), "");
    } else {
      SplitIs(language, part[1..]);
      var pieces := SplitName(language, part[1..]);
      var separators :| IsSplit(language, part[1..], pieces, separators);
      hide IsSplit;
      SplitMore(language, part[0], part[1..], pieces, separators);
      assert [part[0]] + part[1..] == part;
      var more := if IsSeparator(language, part[0]) then [part[0]] + separators else separators;
      assert IsSplit(language, part, SplitName(language, part), more);
    }
  }

  /** The pieces of one part after another. */
  lemma {:induction false} PiecesIs(language: Language, name: seq<string>, more: seq<string>)
    ensures Pieces(language, name + more) == Pieces(language, name) + Pieces(language, more)
    ensures |more| == 1 ==> Pieces(language, more) == SplitName(language, more[0])
    decreases |more|
  {
    hide SplitName;
    if more == [] {
      assert name + more == name;
    } else {
      var k := |more| - 1;
      assert name + more == (name + more[..k]) + [more[k]];
      assert (name + more)[..|name + more| - 1] == name + more[..k];
      PiecesIs(language, name, more[..k]);
    }
  }

  predicate IsConsonant(c: char) {
    IsLetter(c) && c !in "aeiouy"
  }

  function Consonants(part: string): (consonants: string)
    ensures forall c <- consonants :: IsConsonant(c)
  {
    if part == "" then "" else (if IsConsonant(part[0]) then [part[0]] else "") + Consonants(part[1..])
  }

  lemma {:induction false} ConsonantsIs(text: string, c: char)
    ensures Consonants("") == ""
    ensures Consonants(text + [c]) == Consonants(text) + if 'a' <= c <= 'z' && c !in "aeiouy" then [c] else ""
  {
    if text != "" {
      assert (text + [c])[1..] == text[1..] + [c];
      ConsonantsIs(text[1..], c);
    }
  }

  function Concat(parts: seq<string>): string {
    if parts == [] then "" else parts[0] + Concat(parts[1..])
  }

  /** The consonants to draw on after the first letter: those of all pieces but the first, then those
      of the first piece from as many on as the last piece has. */
  function Reserve(consonants: seq<string>): string
    requires consonants != []
  {
    if |consonants| == 1 then consonants[0]
    else
      var offset := |consonants[|consonants| - 1]|;
      Concat(consonants[1..]) + if offset <= |consonants[0]| then consonants[0][offset..] else ""
  }

  function Fewest(consonants: seq<string>): nat {
    if |consonants| == 1 then 2 else 1
  }

  /** There are too few consonants exactly if a single piece has fewer than two, or several have none at all. */
  lemma TooFewIff(consonants: seq<string>)
    requires consonants != []
    ensures |Reserve(consonants)| < Fewest(consonants) <==>
      if |consonants| == 1 then |consonants[0]| < 2 else AllEmpty(consonants)
  {
    if |consonants| > 1 {
      var rest := consonants[1..];
      ConcatIsEmptyIff(rest);
      AllEmptyRest(consonants);
      hide Concat;
      if Concat(rest) == "" {
        assert rest[|rest| - 1] == consonants[|consonants| - 1] == "" && consonants[0][0..] == consonants[0];
      }
    }
  }

  predicate AllEmpty(parts: seq<string>) {
    forall i :: 0 <= i < |parts| ==> parts[i] == ""
  }

  lemma AllEmptyRest(parts: seq<string>)
    requires parts != []
    ensures AllEmpty(parts) <==> parts[0] == "" && AllEmpty(parts[1..])
  {
    assert forall i :: 1 <= i < |parts| ==> parts[i] == parts[1..][i - 1];
  }

  lemma {:induction false} ConcatIsEmptyIff(parts: seq<string>)
    ensures Concat(parts) == "" <==> AllEmpty(parts)
  {
    if parts != [] {
      AllEmptyRest(parts);
      ConcatIsEmptyIff(parts[1..]);
    }
  }

  /** The reserve starts with the consonants of the first later piece that has any; if none has, it is
      those of the first piece. */
  lemma {:induction false} ReserveStarts(consonants: seq<string>, j: nat)
    requires 1 <= j <= |consonants| && forall i :: 1 <= i < j ==> consonants[i] == ""
    ensures j == |consonants| ==> Reserve(consonants) == consonants[0]
    ensures j < |consonants| ==> consonants[j] <= Reserve(consonants)
  {
    var rest := consonants[1..];
    ConcatStarts(rest, j - 1);
    hide Concat;
    if j == |consonants| > 1 {
      assert consonants[j - 1] == "" && consonants[0][0..] == consonants[0];
    }
  }

  /** After the consonants of the later pieces come those of the first piece, but without as many as the
      last piece has. */
  lemma ReserveEnds(consonants: seq<string>)
    requires |consonants| >= 2
    ensures Concat(consonants[1..]) <= Reserve(consonants)
    ensures var reserve, first, skipped :=
        Reserve(consonants), consonants[0], |consonants[|consonants| - 1]|;
      && |reserve| == |Concat(consonants[1..])| + (if skipped <= |first| then |first| - skipped else 0)
      && forall i :: skipped <= i < |first| ==> reserve[|reserve| - |first| + i] == first[i]
  {
    hide Concat;
  }

  lemma {:induction false} ConcatStarts(parts: seq<string>, j: nat)
    requires j <= |parts| && forall i :: 0 <= i < j ==> parts[i] == ""
    ensures if j < |parts| then parts[j] <= Concat(parts) else Concat(parts) == ""
  {
    if j > 0 {
      ConcatStarts(parts[1..], j - 1);
    }
  }

  ghost predicate IsFirstLetter(text: string, c: char) {
    exists i: nat :: i < |text| && IsLetter(c) && c == text[i] && forall j :: 0 <= j < i ==> !IsLetter(text[j])
  }

  method FirstLetter(text: string) returns (letter: Option<char>)
    ensures match letter
            case None => forall c <- text :: !IsLetter(c)
            case Some(c) => IsFirstLetter(text, c)
  {
    for i := 0 to |text|
      invariant forall j :: 0 <= j < i ==> !IsLetter(text[j])
    {
      if IsLetter(text[i]) {
        return Some(text[i]);
      }
    }
    return None;
  }

  /** The first two consonants of the reserve, the only one twice if need be. */
  method TwoConsonants(consonants: seq<string>) returns (two: Option<string>)
    requires consonants != []
    ensures two.None? <==> |Reserve(consonants)| < Fewest(consonants)
    ensures two.Some? ==>
      var reserve := Reserve(consonants); two.value == [reserve[0], reserve[if |reserve| >= 2 then 1 else 0]]
  {
    if |consonants| == 1 {
      return if |consonants[0]| < 2 then None else Some(consonants[0][..2]);
    }
    var start, rest := consonants[0], consonants[1..];
    var offset := |rest[|rest| - 1]|;
    var allConsonants := Concat(rest) + if offset <= |start| then start[offset..] else "";
    if |allConsonants| == 0 {
      return None;
    }
    return Some([allConsonants[0], allConsonants[if |allConsonants| == 1 then 0 else 1]]);
  }

  function LoweredPieces(language: Language, name: seq<string>): (pieces: seq<string>)
    ensures |pieces| >= |name|
    ensures |pieces| == |Pieces(language, name)|
      && forall i :: 0 <= i < |pieces| ==> pieces[i] == language.lower(Pieces(language, name)[i])
  {
    var pieces := Pieces(language, name);
    seq(|pieces|, i requires 0 <= i < |pieces| => language.lower(pieces[i]))
  }

  function ConsonantsOfAll(pieces: seq<string>): (consonants: seq<string>)
    ensures |consonants| == |pieces| && forall part <- consonants, c <- part :: IsConsonant(c)
  {
    seq(|pieces|, i requires 0 <= i < |pieces| => Consonants(pieces[i]))
  }

  /** The first letter of the first piece, then two consonants of the reserve. */
  ghost predicate AreLetters(pieces: seq<string>, letters: string)
    requires pieces != []
  {
    var reserve := Reserve(ConsonantsOfAll(pieces));
    && |letters| == 3 && IsFirstLetter(pieces[0], letters[0]) && |reserve| >= Fewest(ConsonantsOfAll(pieces))
    && letters[1..] == [reserve[0], reserve[if |reserve| >= 2 then 1 else 0]]
  }

  method SplitAndLower(language: Language, name: seq<string>) returns (newName: seq<string>)
    ensures newName == LoweredPieces(language, name)
  {
    newName := [];
    for i := 0 to |name|
      invariant newName == Pieces(language, name[..i])
    {
      assert name[..i + 1][..i] == name[..i];
      newName := newName + SplitName(language, name[i]);
    }
    assert name[..|name|] == name;
    newName := seq(|newName|, i requires 0 <= i < |newName| => language.lower(newName[i]));
  }

  /** Three letters from a name: the first letter there is, and two consonants. It fails exactly if the
      first piece has no letter or there are too few consonants. */
  method ExtractLetters(language: Language, name: seq<string>) returns (result: Result<string, LettersError>)
    requires name != []
    ensures var pieces := LoweredPieces(language, name);
      match result
      case Err(NoFirstLetter) => forall c <- pieces[0] :: !IsLetter(c)
      case Err(TooFewConsonants) =>
        (exists c :: IsFirstLetter(pieces[0], c))
          && |Reserve(ConsonantsOfAll(pieces))| < Fewest(ConsonantsOfAll(pieces))
      case Ok(letters) => AreLetters(pieces, letters)
    ensures result.Ok? ==> forall c <- result.value :: IsLetter(c)
  {
    var newName := SplitAndLower(language, name);
    hide LoweredPieces, Pieces, Reserve, Consonants, ConsonantsOfAll;
    var firstLetter := FirstLetter(newName[0]);
    if firstLetter.None? {
      return Err(NoFirstLetter);
    }
    var two := TwoConsonants(ConsonantsOfAll(newName));
    if two.None? {
      return Err(TooFewConsonants);
    }
    ReserveIsConsonants(ConsonantsOfAll(newName));
    ghost var reserve := Reserve(ConsonantsOfAll(newName));
    assert two.value[0] in reserve && two.value[1] in reserve;
    return Ok([firstLetter.value] + two.value);
  }

  lemma {:induction false} ConcatIsConsonants(parts: seq<string>)
    requires forall part <- parts, c <- part :: IsConsonant(c)
    ensures forall c <- Concat(parts) :: IsConsonant(c)
  {
    if parts != [] {
      ConcatIsConsonants(parts[1..]);
      assert parts[0] in parts;
    }
  }

  lemma ReserveIsConsonants(consonants: seq<string>)
    requires consonants != [] && forall part <- consonants, c <- part :: IsConsonant(c)
    ensures forall c <- Reserve(consonants) :: IsConsonant(c)
  {
    hide Concat, IsConsonant;
    assert consonants[0] in consonants;
    ConcatIsConsonants(consonants[1..]);
  }

  // ---------------------------------------------------------------------------------------------
  // generate_username_permutation_func
  // ---------------------------------------------------------------------------------------------

  function Numbered(letters: string, suffix: nat): string {
    letters + Dec(suffix)
  }

  function NumberedUpTo(letters: string, n: nat): set<string> {
    set k | 1 <= k <= n :: Numbered(letters, k)
  }

  /** Pigeonhole: n suffixes make n names. */
  lemma {:induction false} NumberedCount(letters: string, n: nat)
    ensures |NumberedUpTo(letters, n)| == n
  {
    if n > 0 {
      NumberedCount(letters, n - 1);
      assert NumberedUpTo(letters, n) == NumberedUpTo(letters, n - 1) + {Numbered(letters, n)};
      if Numbered(letters, n) in NumberedUpTo(letters, n - 1) {
        var k: nat :| 1 <= k <= n - 1 && Numbered(letters, k) == Numbered(letters, n);
        assert Numbered(letters, k)[|letters|..] == Dec(k) && Numbered(letters, n)[|letters|..] == Dec(n);
        DecIsInjective(k, n);
      }
    } else {
      assert NumberedUpTo(letters, 0) == {};
    }
  }

  lemma SuffixIsBounded(letters: string, n: nat, occupied: set<string>)
    requires NumberedUpTo(letters, n) <= occupied
    ensures n <= |occupied|
  {
    NumberedCount(letters, n);
    SubsetSize(NumberedUpTo(letters, n), occupied);
  }

  lemma {:induction false} SubsetSize<T>(xs: set<T>, ys: set<T>)
    requires xs <= ys
    ensures |xs| <= |ys|
  {
    if x :| x in xs {
      SubsetSize(xs - {x}, ys - {x});
    }
  }

  predicate IsOccupied(settings: Settings, username: string) {
    Lower(username) in set f <- settings.forbidden :: Lower(f)
  }

  predicate Free(settings: Settings, taken: Taken, employee: Employee, username: string) {
    !IsOccupied(settings, username) && Allowed(settings, taken, employee, username)
  }

  /** A name is free exactly if it is allowed and no forbidden name in any case. */
  lemma FreeIff(settings: Settings, taken: Taken, employee: Employee, username: string)
    ensures Free(settings, taken, employee, username) <==>
      && Allowed(settings, taken, employee, username)
      && forall f, lowered | f in settings.forbidden && SameLowered(f, lowered) :: !SameLowered(username, lowered)
  {
    hide Allowed;
    assert forall text, lowered :: SameLowered(text, lowered) <==> lowered == Lower(text);
    hide Lower, SameLowered;
    assert forall f <- settings.forbidden :: SameLowered(f, Lower(f));
  }

  /** All names that are forbidden, used in LDAP or reserved in MO. */
  function Occupied(settings: Settings, taken: Taken): set<string> {
    (set f <- settings.forbidden :: Lower(f)) + taken.ldap + taken.mo.Keys
  }

  lemma NumberedIsLower(letters: string, suffix: nat)
    requires forall c <- letters :: IsLetter(c)
    ensures Lower(Numbered(letters, suffix)) == Numbered(letters, suffix)
  {
    var username := Numbered(letters, suffix);
    forall i | 0 <= i < |username| ensures LowerChar(username[i]) == username[i] {
      assert username[i] in letters || username[i] in Dec(suffix);
    }
  }

  lemma RefusedIsOccupied(settings: Settings, taken: Taken, employee: Employee, letters: string, suffix: nat)
    requires (forall c <- letters :: IsLetter(c)) && !Free(settings, taken, employee, Numbered(letters, suffix))
    ensures Numbered(letters, suffix) in Occupied(settings, taken)
  {
    hide Lower, Numbered;
    NumberedIsLower(letters, suffix);
  }

  /** The letters with the least suffix that is free; the search ends after at most one more step than
      there are occupied names. */
  method GenerateUsernamePermutation(settings: Settings, taken: Taken, employee: Employee, language: Language,
                                     givenName: string, surname: string)
    returns (result: Result<string, LettersError>, ghost suffix: nat)
    ensures result.Ok? ==>
      exists letters ::
        AreLetters(LoweredPieces(language, [givenName, surname]), letters) && (forall c <- letters :: IsLetter(c))
        && result.value == Numbered(letters, suffix)
        && forall k :: 1 <= k < suffix ==> !Free(settings, taken, employee, Numbered(letters, k))
    ensures result.Ok? ==> Free(settings, taken, employee, result.value)
    ensures result.Ok? ==> 1 <= suffix <= |Occupied(settings, taken)| + 1
    ensures result.Err? ==> forall letters :: !AreLetters(LoweredPieces(language, [givenName, surname]), letters)
  {
    hide Free, Occupied, Numbered, Reserve, LoweredPieces;
    var extracted := ExtractLetters(language, [givenName, surname]);
    if extracted.Err? {
      return Err(extracted.error), 0;
    }
    var letters := extracted.value;
    var counter := 1;
    while !Free(settings, taken, employee, Numbered(letters, counter))
      invariant counter >= 1 && forall k :: 1 <= k < counter ==> !Free(settings, taken, employee, Numbered(letters, k))
      invariant NumberedUpTo(letters, counter - 1) <= Occupied(settings, taken)
      decreases |Occupied(settings, taken)| - counter
    {
      RefusedIsOccupied(settings, taken, employee, letters, counter);
      assert NumberedUpTo(letters, counter) == NumberedUpTo(letters, counter - 1) + {Numbered(letters, counter)};
      SuffixIsBounded(letters, counter, Occupied(settings, taken));
      counter := counter + 1;
    }
    SuffixIsBounded(letters, counter - 1, Occupied(settings, taken));
    return Ok(Numbered(letters, counter)), counter;
  }
}
