# Verified model of the OS2mo LDAP integration

OS2mo (MO) and an LDAP directory are kept in step by an integration that polls LDAP for changes,
imports changed accounts into MO, exports changed persons to LDAP, and allocates names on the way.
This project models that integration in Dafny, one module per component, and proves what the
components keep over whole runs, what their results mean and where they fall short.

Code that computes values is modelled by functions; code that works in steps is modelled by methods,
and by classes where the original keeps state in an object or a store. Three protocols are state
machines whose steps may be interleaved in every way, with failures and crashes: the change poller,
the correlation of persons with accounts, and the creation of classes under a lock.

| file | component |
|---|---|
| `PagedSearch.dfy` | the cookie loop of a paged search (section 3 of RFC 2696) |
| `EventPoller.dfy` | the change poller: durable cursor, stored UUIDs, events |
| `Timestamps.dfy` | the generalized time the poller searches by (section 3.3.13 of RFC 4517) |
| `AssertionFilter.dfy` | the printed assertion filter, its parser and its meaning (sections 2 and 3 of RFC 4515) |
| `LdapWriter.dfy` | creating, replacing and renaming LDAP entries (section 2.4 of RFC 4514 for names) |
| `Discriminator.dfy` | the choice of one account among candidates |
| `Correlation.dfy` | find, choose, create or modify, link: all persons at once, with crashes |
| `Export.dfy` | the same handling of one person, call by call, on the two stores |
| `MoImport.dfy` | the import of one LDAP object as one MO object |
| `Validities.dfy` | the choice among dated values, and the primary engagement |
| `ClassCreation.dfy` | get-or-create of classes under a lock |
| `CommonName.dfy` | the allocation of common names |
| `Usernames.dfy` | usernames by combinations, and by letters with a number |
| `Decimal.dfy`, `Wrappers.dfy` | decimal numbers; `Option` and `Result` |

Statements of the form "exactly when" are proved in both directions. Four of them record that the
code does not do what its surroundings suggest in every case:

* A change is not reported, as long as nothing else changes, exactly if it is older than the cursor or
  the next poll finds just what the row holds (`EventPoller.ReportedIff`). A second change within the
  second of the cursor can be such a one (`EventPoller.SameSecondIsLost`), and so can an entry missing
  from an answer cut short by an error (`EventPoller.CutAnswerReportedIff`, `EventPoller.CutAnswerIsLost`).
* Two spellings of one UUID pass the duplicate check, which compares texts, and then collapse into one
  dictionary entry (`Export.ExtractIsIndexIff`, `Export.SpellingsCollapse`).
* A class is looked up under the lock by its user key alone, so a caller may be handed a class of a
  facet it did not ask for (`ClassCreation.UndisturbedFacetIff`, `ClassCreation.FacetIsRespectedIff`).
* The naming values of an entry's name are compared in their escaped form when an entry is created
  (`LdapWriter.EnsureAfterCreateIff`, `LdapWriter.PlainNameIsRefusedIff`).

## Model

| member | source | states |
|---|---|---|
| `PagedSearch.EntriesOfConcatenation` | mo_ldap_import_export/ldap.py:570-573 | keeping the entries of two responses taken together gives the entries of the first followed by those of the second |
| `PagedSearch.Search` | mo_ldap_import_export/ldap.py:576-634 | the loop, which changes its parameters in place, collects page by page what the server answers to the cookies it is given, for at most 10,000 pages |
| `PagedSearch.CollectedFrom` | mo_ldap_import_export/ldap.py:583-634 | from any page on, a server holding a fixed list yields exactly the entries up to the page where the search stops |
| `PagedSearch.SearchReturnsPrefix` | mo_ldap_import_export/ldap.py:583-634 | a search returns the entries of a prefix of the server's list, once each and in order: all, those of the first 10,000 pages, or those before the page that fails |
| `PagedSearch.SearchIsCompleteIff` | mo_ldap_import_export/ldap.py:583-634 | without a failing page the search is the plain search exactly when every entry lies within the first 10,000 pages |
| `EventPoller.LastRun.constructor` | mo_ldap_import_export/ldap_event_generator.py:73-88 | a fresh row starts at the epoch with no stored UUIDs |
| `EventPoller.Poll` | mo_ldap_import_export/ldap_event_generator.py:198-223 | the UUIDs found are those of the events that carry one |
| `EventPoller.Latest` | mo_ldap_import_export/ldap_event_generator.py:209-223 | the time found is the greatest modification time any event carries, and there is none only if no event carries one |
| `EventPoller.EventGenerator.PublishUuids` | mo_ldap_import_export/ldap_emit.py:15-32 | every UUID of the set is sent once |
| `EventPoller.EventGenerator.GenerateEvents` | mo_ldap_import_export/ldap_event_generator.py:238-279 | one round sends exactly what was found if it differs from the row, and leaves the row with the cursor and UUIDs found, or as it was if no time was found |
| `EventPoller.PollOfAnswer` | mo_ldap_import_export/ldap_event_generator.py:152-223 | the poll of any answer holding exactly some entries yields their UUIDs and the latest of their times |
| `EventPoller.RoundOfServer` | mo_ldap_import_export/ldap_event_generator.py:176-279 | through the paged search, a round against a server that answers with all matching entries is the poll step of the state machine |
| `EventPoller.StepIsWellFormed` | mo_ldap_import_export/ldap_event_generator.py:238-279 | no step of any kind moves the cursor back |
| `EventPoller.StepKeepsIff` | mo_ldap_import_export/ldap_event_generator.py:238-279 | a step keeps the invariant that every unreported change is stamped after the cursor, or at it for a UUID that is not stored, exactly when a new change is stamped so and an answer cut short holds nothing later than what it leaves out; the invariant is on the safe side, a change outside it may still be reported |
| `EventPoller.RunKeeps` | mo_ldap_import_export/ldap_event_generator.py:225-279 | over every run with changes, deletions, polls, crashes and rollbacks nothing is lost and the cursor never moves back |
| `EventPoller.NoLostChange` | mo_ldap_import_export/ldap_event_generator.py:225-279 | from a fresh row, in every reachable state each live entry's latest change has been sent, or is stamped after the cursor, or at it with a UUID outside the stored set |
| `EventPoller.SendsDrain` | mo_ldap_import_export/ldap_event_generator.py:261-279 | the events of a poll can be sent in any order, and sending them all and committing reports each of them and nothing else |
| `EventPoller.UndisturbedPoll` | mo_ldap_import_export/ldap_event_generator.py:238-279 | a whole poll that nothing disturbs leaves no change of a live entry unreported |
| `EventPoller.SecondPollSettles` | mo_ldap_import_export/ldap_event_generator.py:261-279 | after two polls of an unchanging directory, whatever the row was, a further poll sends nothing and changes nothing |
| `EventPoller.Quiescence` | mo_ldap_import_export/ldap_event_generator.py:261-279 | at most two polls of an unchanging directory send any event, from any row |
| `EventPoller.CursorNeverMovesBack` | mo_ldap_import_export/ldap_event_generator.py:261-279 | no number of polls moves the cursor back |
| `EventPoller.EventuallyReportedIff` | mo_ldap_import_export/ldap_event_generator.py:261-279 | from any row, an entry of a directory that stays as it is is reported by some poll exactly when it is not older than the cursor and the next poll finds other UUIDs or another latest time than the row holds |
| `EventPoller.ReportedIff` | mo_ldap_import_export/ldap_event_generator.py:261-279 | so it is for a change of one entry, from any row |
| `EventPoller.SettledReportedIff` | mo_ldap_import_export/ldap_event_generator.py:261-279 | from a row the directory did not differ from, that is: exactly when the change is stamped after the cursor, or at it for a UUID that is not stored |
| `EventPoller.SameSecondIsLost` | mo_ldap_import_export/ldap_event_generator.py:261-279 | an entry that changes again within the second of the cursor, with its UUID stored, is reported by no poll as things are |
| `EventPoller.SameSecondIsRescued` | mo_ldap_import_export/ldap_event_generator.py:261-279 | the next change of another entry brings it out |
| `EventPoller.SameSecondAfterMove` | mo_ldap_import_export/ldap_event_generator.py:261-279 | it is reported if the stored set still holds an entry older than the cursor, as after the cursor has moved |
| `EventPoller.CutAnswerReportedIff` | mo_ldap_import_export/ldap.py:599-634 | an entry missing from an answer cut short by an error is reported later exactly when it is not older than everything the answer held |
| `EventPoller.CutAnswerIsLost` | mo_ldap_import_export/ldap.py:599-634 | an answer of two entries cut short to the later one: the earlier one is reported by no poll as things are |
| `Timestamps.ParseTimestamp` | mo_ldap_import_export/ldap_event_generator.py:282-297 | the generalized time written for a moment reads back as that moment without its fraction of a second, years below 1000 included |
| `AssertionFilter.EncodeIsOctetwise` | mo_ldap_import_export/ldap.py:854-861 | the successive replacements and the replacement of blanks amount to escaping octet by octet: no pass touches what another wrote |
| `AssertionFilter.EncodeIsInjective` | mo_ldap_import_export/ldap.py:854-861 | distinct values have distinct encodings |
| `AssertionFilter.ParseEncoded` | mo_ldap_import_export/ldap.py:854-861 | unescaping by the grammar of RFC 4515 inverts the encoding, whatever follows |
| `AssertionFilter.ParsePrinted` | mo_ldap_import_export/ldap.py:835-880 | parsing inverts printing for every filter that has a string form, nested to any depth |
| `AssertionFilter.GeneratePairsIsPrint` | mo_ldap_import_export/ldap.py:854-875 | what is generated for one attribute is the printed form of an equality, a negated presence or a conjunction |
| `AssertionFilter.PairMeaning` | mo_ldap_import_export/ldap.py:863-875 | that filter is true of an entry exactly when the scalar or every list item is a value, or, for an empty list, the attribute is absent |
| `AssertionFilter.AssertionRoundTrip` | mo_ldap_import_export/ldap.py:813-880 | construction fails exactly if `dn` is among the attributes; otherwise the printed filter parses, and is true of an entry exactly when every attribute is as asserted (with no attributes: when it has an object class) |
| `LdapWriter.UnescapeEscaped` | mo_ldap_import_export/ldapapi.py:453-470 | unescaping a naming value inverts its escaping |
| `LdapWriter.EscapeIsInjective` | mo_ldap_import_export/ldapapi.py:453-470 | distinct naming values have distinct escaped forms |
| `LdapWriter.EscapeIsIdentityIff` | mo_ldap_import_export/ldapapi.py:453-470 | a naming value is written as it is exactly if it has no special character of RFC 4514, no blank at either end and no leading number sign |
| `LdapWriter.CasefoldIff` | mo_ldap_import_export/ldapapi.py:161-172 | two keys name one attribute exactly if they differ at most in the case of letters |
| `LdapWriter.DesiredStateIs` | mo_ldap_import_export/ldapapi.py:170 | every key of the dictionary is desired, with the values of the last key of its name, and nothing else is |
| `LdapWriter.NoChangesIff` | mo_ldap_import_export/ldapapi.py:172-177 | there is nothing to write exactly if the entry has the values of every key |
| `LdapWriter.NameChangesIff` | mo_ldap_import_export/ldapapi.py:450-479 | an entry is renamed exactly if one of its naming attributes is to change |
| `LdapWriter.LDAPAPI.AddLdapObject` | mo_ldap_import_export/ldapapi.py:184-267 | an entry is created as specified, or the call fails without effect; `LdapWriter.CreateSucceedsIff` and `LdapWriter.CreateSetsExactly` say when, and what the entry holds |
| `LdapWriter.LDAPAPI.ModifyLdapObject` | mo_ldap_import_export/ldapapi.py:354-483 | the replacement of attributes and the rename have the effect of their specification, in two operations, and no changes write nothing |
| `LdapWriter.LDAPAPI.EnsureLdapObject` | mo_ldap_import_export/ldapapi.py:123-182 | the diff of desired and current state is written as specified, and no write operation is sent if they agree; `LdapWriter.EnsureSetsExactly` says what that leaves for every key |
| `LdapWriter.ModifiedIs` | mo_ldap_import_export/ldapapi.py:354-483 | the two operations keep the directory well formed, touch one entry and, if they succeed, leave it with exactly the changes written |
| `LdapWriter.EnsureKeepsValid` | mo_ldap_import_export/ldapapi.py:123-182 | no call, failing or not, spoils the directory or touches another entry |
| `LdapWriter.EnsureSucceedsIff` | mo_ldap_import_export/ldapapi.py:405-479 | on a writable entry a call succeeds exactly when each naming attribute to be changed gets one value that is not empty and no other entry has the resulting name |
| `LdapWriter.EnsureWrites` | mo_ldap_import_export/ldapapi.py:161-182 | a call that succeeds leaves exactly the effect of the two operations |
| `LdapWriter.EnsureSetsExactly` | mo_ldap_import_export/ldapapi.py:161-182 | a call that succeeds gives the entry the values of every key, unless a later key folds to the same name, leaves every attribute that no key folds to alone, and returns the name of the same entry |
| `LdapWriter.NothingIsWritten` | mo_ldap_import_export/ldapapi.py:375-479 | outside the writable places nothing is written and nothing fails; a read-only directory is not written, and the call succeeds exactly if the entry has the values of every key |
| `LdapWriter.SecondEnsureWritesNothing` | mo_ldap_import_export/ldapapi.py:161-182 | a further call on the returned name writes nothing and returns the same |
| `LdapWriter.RestOfChanges` | mo_ldap_import_export/ldapapi.py:405-479 | after the replacement of attributes the naming attributes are what is left to change |
| `LdapWriter.RerunAfterCrash` | mo_ldap_import_export/ldapapi.py:405-479 | a rerun after a crash between replacement and rename ends as the uninterrupted call would have |
| `LdapWriter.CreateSucceedsIff` | mo_ldap_import_export/ldapapi.py:204-267 | a creation succeeds exactly if the name may be written and is free and every key of the name that has values has just the text of the name; a disagreement with the name is the error exactly if there is one in a writable place; a creation that fails changes nothing |
| `LdapWriter.CreateSetsExactly` | mo_ldap_import_export/ldapapi.py:216-267 | a created entry has the values of every key outside its name, its naming values without the escapes, and no other attributes; no other entry changes |
| `LdapWriter.EnsureAfterCreateIff` | mo_ldap_import_export/ldapapi.py:215-267 | the first call after a creation writes nothing exactly when the desired naming attributes need no escaping |
| `LdapWriter.EscapedNameIsRewritten` | mo_ldap_import_export/ldapapi.py:215-267 | a creation with an escaped comma in its name, after which the first call writes |
| `LdapWriter.CreateKeepsValidIff` | mo_ldap_import_export/ldapapi.py:184-267 | a creation leaves the directory well formed, so that calls can follow, exactly if every naming text of the new name is its value as escaped |
| `LdapWriter.PlainNameIsRefusedIff` | mo_ldap_import_export/ldapapi.py:219-240 | with a properly escaped name, a creation that desires the plain naming values is refused exactly if one of them needs escaping |
| `Discriminator.ApplyDiscriminator` | mo_ldap_import_export/ldap.py:451-567 | if every candidate has all fields, the result is the account that alone matches the first discriminator value with any match, an error exactly if that value has several matches, and no account exactly if no value has any; a candidate without a field, or with several values in one, is an error; without configured fields all candidates must be one account |
| `Discriminator.MappingErrorIs` | mo_ldap_import_export/ldap.py:345-414 | an absent field is an error whatever the others hold, else a field with several values is, and otherwise there is none |
| `Discriminator.MatchesIff` | mo_ldap_import_export/ldap.py:374-389 | a name matches exactly if the template says yes to a candidate of that name and the values of its fields |
| `Discriminator.LoadedShows` | mo_ldap_import_export/ldap.py:345-364 | a template sees the account's own value of an attribute that was asked for, or that it has none |
| `Discriminator.FirstMatchIff` | mo_ldap_import_export/ldap.py:536-567 | the account is the only match of the first value with any match; the choice is ambiguous exactly when that value has several, and empty exactly when no value has any |
| `Discriminator.SelectedIff` | mo_ldap_import_export/ldap.py:451-567 | so it is for the whole list of discriminator values of the settings |
| `Discriminator.ChoiceIff` | mo_ldap_import_export/ldap.py:417-567 | and after filtering, for the candidates the filter says yes to, in whatever order they are listed |
| `Discriminator.ChoiceIgnoresOrder` | mo_ldap_import_export/ldap.py:417-567 | the outcome depends neither on the order of the candidates nor on repetitions |
| `Discriminator.BothDirectionsAgree` | mo_ldap_import_export/import_export.py:417-462 | on one snapshot import and export come to the same outcome if the import loads the discriminator fields, and never select different accounts |
| `Discriminator.MissingFieldsSelectNothing` | mo_ldap_import_export/ldap.py:392-414 | without the discriminator fields no account is selected |
| `Correlation.StepKeepsInvariantIff` | mo_ldap_import_export/import_export.py:233-312 | the invariant (ids, unique links, lookups that cannot miss a steady account, no leaked account) survives exactly the steps that leak no account |
| `Correlation.NoneLeakedIff` | mo_ldap_import_export/import_export.py:157-173 | a step leaks an account exactly if it stops short of the link, or cuts the last way, to an account that no CPR number leads to |
| `Correlation.RunKeepsInvariant` | mo_ldap_import_export/import_export.py:233-312 | it holds in every state of every run with any number of persons handled at once |
| `Correlation.InitialIsFine` | mo_ldap_import_export/import_export.py:233-312 | with nothing linked, created or under way, whatever the directory holds, all the invariants hold, so that the statements about runs can start there |
| `Correlation.LookupNeverRaises` | mo_ldap_import_export/dataloaders.py:53-63 | if links are made by the export, no person ever has two active links to one account, whatever fails or crashes, so extraction never raises |
| `Correlation.SteadyIs` | mo_ldap_import_export/dataloaders.py:231-271 | the history variable means what it says: an account is steady exactly if it has existed and passed the filter in every state since the handling began |
| `Correlation.NoSecondAccount` | mo_ldap_import_export/import_export.py:254-303 | if a handling ends in a creation, every account created earlier for the person was missing or did not pass the filter at some moment of that handling |
| `Correlation.NoAccountBesideCorrelated` | mo_ldap_import_export/dataloaders.py:231-342 | whatever is done or fails meanwhile, no account is created for a person as long as any account, whoever created it, exists, passes the filter and a link or the CPR number leads to it |
| `Correlation.AtMostOneAccount` | mo_ldap_import_export/import_export.py:254-312 | if no account is made to pass the filter again, no run leaves a person with two created accounts that pass it |
| `Correlation.StepKeepsTaggedIff` | mo_ldap_import_export/import_export.py:282-303 | accounts carry the CPR number of their person exactly as long as every write puts it there |
| `Correlation.TaggedRunIsAllowed` | mo_ldap_import_export/import_export.py:282-312 | if they do, failures and crashes anywhere, and links ending, leak no account |
| `Correlation.LeakedAccountIsDuplicated` | mo_ldap_import_export/import_export.py:157-173 | an account that is not found for its person, while nothing that is found passes, is duplicated by the next handling |
| `Correlation.UndisturbedLookup` | mo_ldap_import_export/dataloaders.py:134-342 | the undisturbed lookup of any person, in any order of reading and ending links, decides on exactly the accounts the CPR number and the links lead to, and ends exactly the links whose accounts are gone |
| `Correlation.FoundForIff` | mo_ldap_import_export/dataloaders.py:134-271 | these are exactly the accounts that exist and that an active link of the person names, or that are searched and carry the person's CPR number |
| `Correlation.LinkIsRestored` | mo_ldap_import_export/import_export.py:146-196 | after a write the account is linked when the handling ends, or the link can be created and then is there |
| `Correlation.SelfHealing` | mo_ldap_import_export/import_export.py:254-312 | one undisturbed handling of any person, whatever its links and however many accounts carry its CPR number, modifies the account the discriminator selects among those found, creates none, and leaves the person linked to it |
| `Export.ExtractIsIndexIff` | mo_ldap_import_export/dataloaders.py:38-65 | extraction fails exactly on a malformed or repeated key, and else indexes the IT-users one to one exactly if no two spell one id differently |
| `Export.WrittenKeysAreIndexed` | mo_ldap_import_export/import_export.py:174-196 | keys as the export writes them are always indexed one to one |
| `Export.CaseDoesNotCount` | mo_ldap_import_export/ldap.py:794-801 | texts of 32 hexadecimal digits that differ in case only are one UUID |
| `Export.SpellingsCollapse` | mo_ldap_import_export/dataloaders.py:53-65 | two IT-users that spell one UUID in lower and upper case: extraction succeeds, and the first is not in the dictionary |
| `Export.ByUuidIs` | mo_ldap_import_export/dataloaders.py:65 | the dictionary holds the last IT-user with each id, and nothing else |
| `Export.DataLoader.FindMoEmployeeDnByItsystem` | mo_ldap_import_export/dataloaders.py:134-189 | only links whose accounts are gone are terminated and only linked accounts returned; for well-keyed links all of both, so that they are partitioned |
| `Export.WithoutGoneIs` | mo_ldap_import_export/dataloaders.py:165-187 | a link is ended exactly if it is an active one of the person to an account that does not exist, and no link changes otherwise |
| `Export.DataLoader.FindMoEmployeeDnByCprNumber` | mo_ldap_import_export/dataloaders.py:191-229 | exactly the accounts that the search covers and whose CPR attribute holds the person's number, alone or among others, as read for the attributes asked for; it fails exactly for an unknown employee |
| `Export.DataLoader.FoundIff` | mo_ldap_import_export/ldapapi.py:322-352 | the search finds an account exactly if it covers it and the CPR attribute holds the person's number |
| `Export.DataLoader.FoundForOneNumber` | mo_ldap_import_export/ldapapi.py:336-340 | an account with a single CPR number is found for nobody with another number |
| `Export.UniqueByDn` | mo_ldap_import_export/dataloaders.py:256-261 | every name is kept once |
| `Export.UniqueKeepsFirst` | mo_ldap_import_export/dataloaders.py:261 | of the candidates with one name the first is kept |
| `Export.DataLoader.FindMoEmployeeDn` | mo_ldap_import_export/dataloaders.py:231-271 | exactly the accounts a link or the CPR number leads to, one a name, as read for the attributes asked for |
| `Export.DataLoader.CorrelatedIff` | mo_ldap_import_export/dataloaders.py:134-271 | an account is one of these exactly if an active IT-user of the person names its unique id, or it is searched and its CPR attribute holds the person's number |
| `Export.FilterIsEmptyIff` | mo_ldap_import_export/ldap.py:417-448 | nothing passes the filter exactly when it turns every candidate down |
| `Export.RefusedIff` | mo_ldap_import_export/ldap.py:417-448 | a candidate is turned down exactly if it has all fields and the filter does not say yes to them |
| `Export.BestDnIff` | mo_ldap_import_export/dataloaders.py:300-342 | of the candidates the filter leaves, the answer is the one that alone matches the first discriminator value with any match; several matches are ambiguous, none at all is an error, and a creation is asked for exactly if the filter leaves nothing |
| `Export.BestDnOfOne` | mo_ldap_import_export/dataloaders.py:300-342 | without discriminator fields the answer is the one name of all candidates, and a creation is asked for exactly if there are none |
| `Export.BestDnIgnoresOrder` | mo_ldap_import_export/dataloaders.py:300-342 | the answer does not depend on the order in which the candidates are found |
| `Export.DataLoader.BothLookupsAgree` | mo_ldap_import_export/dataloaders.py:231-342 | import and export call this one lookup, each for its own attributes: the import's choice and the answer of `FindBestDn` come to the same if the import asks for the discriminator fields, and never to different accounts |
| `Export.DataLoader.FindBestDn` | mo_ldap_import_export/dataloaders.py:300-342 | a creation is asked for, an account selected, or an error reported, as the candidates demand when read for the discriminator fields; a selected name is that of a correlated account |
| `Export.DataLoader.NoFieldIsMissing` | mo_ldap_import_export/dataloaders.py:318-319 | an account without a value in a discriminator field is no error: the field was asked for and comes back empty |
| `Export.DataLoader.EnsureItuserLink` | mo_ldap_import_export/import_export.py:146-196 | exactly one link is added if the IT-system exists and there is no link yet, and none otherwise |
| `Export.LinkingKeepsKeysUnique` | mo_ldap_import_export/import_export.py:174-196 | a person never gets two active IT-users with one user key |
| `Export.WrittenIsWellKeyed` | mo_ldap_import_export/import_export.py:174-196 | links made by the export alone are well keyed for every person |
| `Export.LinkingKeepsWellKeyedIff` | mo_ldap_import_export/import_export.py:174-196 | linking keeps the links of a person well keyed exactly if none leads to the account in another spelling |
| `Export.DataLoader.CreateAccount` | mo_ldap_import_export/dataloaders.py:273-298 | an account is created exactly if creation is allowed, something is rendered, the person has a correlation key and the name is free, and what fails decides the outcome |
| `Export.DataLoader.ModifyAccount` | mo_ldap_import_export/import_export.py:254-303 | the account of the name is written exactly if something is rendered for it and its new name is free |
| `Export.DataLoader.ListenToChangesInEmployees` | mo_ldap_import_export/import_export.py:233-312 | for well-keyed links the outcome is decided by exactly the correlated accounts; at most one account is written, as rendered for it; the links afterwards are those before without the ones to accounts that are gone, and with one to the account written; links made by the export stay so, and nobody else's change |
| `Export.DataLoader.WrittenIff` | mo_ldap_import_export/import_export.py:254-303 | an existing account is written exactly if it is the one selected among the candidates, something is rendered for it and its name is free; a new one exactly if the filter turns down everything correlated and creation is possible |
| `Export.DataLoader.LinkedIsCorrelated` | mo_ldap_import_export/dataloaders.py:134-189 | the link that was made leads the next handling to the account |
| `MoImport.ConversionIgnoresOrder` | mo_ldap_import_export/import_export.py:785-862 | for every order of the fields the conversion comes to the same: skip, requeue, some other error, or the same object |
| `MoImport.TruthyValuesIs` | mo_ldap_import_export/import_export.py:843-844 | a field counts exactly if it rendered to a value that is not empty |
| `MoImport.ConvertsIff` | mo_ldap_import_export/import_export.py:785-862 | a conversion succeeds exactly if every field renders, validity is not mapped and, if it ends, lasts two days, every required attribute gets a value, and the class accepts all values |
| `MoImport.ConversionFailsIff` | mo_ldap_import_export/import_export.py:785-817 | a skip in any field skips the object; without one a requeue in any field requeues it; without either it fails exactly if a field does, with the message of such a field |
| `MoImport.ValidityFailsIff` | mo_ldap_import_export/import_export.py:800-831 | if every field renders, a mapped validity is an error, and otherwise a last day within two days passes the object over |
| `MoImport.ValuesFailIff` | mo_ldap_import_export/import_export.py:833-862 | after that, a required attribute that is not mapped is an error, and then one that rendered empty is another |
| `MoImport.ConvertedValues` | mo_ldap_import_export/import_export.py:843-862 | the object has the values the fields rendered to, and the defaults of its class elsewhere |
| `MoImport.ConvertedIs` | mo_ldap_import_export/import_export.py:819-831 | a converted object has every attribute of its class, begins today and, if it ends, lasts at least two days |
| `MoImport.EditIs` | mo_ldap_import_export/import_export.py:717-770 | there is an edit exactly if a mapped attribute that is not unset, or the last day, would change; it sets exactly those and keeps the id |
| `MoImport.EditStartsToday` | mo_ldap_import_export/import_export.py:717-770 | every edit of a dated object begins today, ends at least two days later if at all, and agrees with the stored version on its id and all attributes that are not mapped |
| `MoImport.CreatedWithoutUnset` | mo_ldap_import_export/moapi.py:642-646 | a created object is stored as converted, with null for the extensions that are unset; UNSET remains only where a field that is no extension rendered to that very text |
| `MoImport.EditedWithoutUnset` | mo_ldap_import_export/import_export.py:731-739 | an edit writes UNSET nowhere |
| `MoImport.StoredAsUploaded` | mo_ldap_import_export/moapi.py:794-809 | the patch an edit sends for extensions, where no value means keep and an empty text means clear, stores exactly the uploaded object |
| `MoImport.MOAPI.FetchUuidObject` | mo_ldap_import_export/import_export.py:317-347 | the version read is the current one, else the one that ends last, and there is none only for an unknown object |
| `MoImport.ChoiceIsRead` | mo_ldap_import_export/moapi.py:108-148 | the choice among dated values, applied to the versions in any order, does not fail and comes to such a version |
| `MoImport.SyncTool.ImportSingleEntity` | mo_ldap_import_export/import_export.py:574-783 | a converted object that MO lacks is created and nothing else is uploaded; for a stored one its termination is uploaded if asked for, then its edit exactly if an attribute or the last day would change; the error is that of the rendering or conversion, except that nothing needs to be synchronised where there is a last day; what has no dates cannot be terminated |
| `MoImport.PlanIsImport` | mo_ldap_import_export/import_export.py:614-783 | the plan the method is proved against is just that, for every object and every version read |
| `MoImport.UploadIs` | mo_ldap_import_export/import_export.py:683-783 | after an upload MO says the same of all other objects; a created object is the only version, an edited one holds within its validity, and a terminated one no longer from its termination on |
| `MoImport.SyncTool.EditObject` | mo_ldap_import_export/import_export.py:717-783 | the dictionary built in place is uploaded exactly if it differs in more than the first day |
| `MoImport.EditedAreVersions` | mo_ldap_import_export/moapi.py:108-148 | an edit keeps the versions of an object disjoint, so reading them never fails |
| `MoImport.EditedIs` | mo_ldap_import_export/import_export.py:766-783 | at every instant an edit leaves the object as it was, or makes it the edited one within its validity |
| `MoImport.ImportKeepsPast` | mo_ldap_import_export/import_export.py:687-783 | no import of a dated object changes what MO says about an instant before today, unless it terminates an object back in time |
| `MoImport.NothingMoreToUpload` | mo_ldap_import_export/import_export.py:741-758 | importing the object a create or edit left uploads nothing, now or on any later day |
| `MoImport.ImportConverges` | mo_ldap_import_export/import_export.py:651-783 | after a create or an edit, importing the unchanged LDAP object again uploads nothing at any later instant, on that or any later day, as read back from MO; nor at the same instant, unless that is midnight and another version ends later than the one written; also with a last day that is only written, before and after it |
| `MoImport.RepeatsAtMidnight` | mo_ldap_import_export/moapi.py:122-148 | in that one case it uploads again |
| `MoImport.TerminationsRepeat` | mo_ldap_import_export/import_export.py:687-707 | with the terminate mutator a termination is uploaded every time |
| `Validities.FailsIff` | mo_ldap_import_export/moapi.py:108-148 | for arbitrary lists the choice fails exactly when two values are current |
| `Validities.ChoiceIsUnique` | mo_ldap_import_export/moapi.py:108-148 | among disjoint non-empty intervals only one value is the current one, or else ends last |
| `Validities.ChoiceOfDisjoint` | mo_ldap_import_export/moapi.py:108-148 | for two or more disjoint non-empty intervals the choice never fails and is that value |
| `Validities.ChoicePermutes` | mo_ldap_import_export/moapi.py:108-148 | it does not depend on the order of the values |
| `Validities.PrimaryEngagementIs` | mo_ldap_import_export/moapi.py:195-258 | the primary engagement is that of a primary value that is current or, if none is, that ends last of all primary values |
| `Validities.NoPrimaryEngagementIff` | mo_ldap_import_export/moapi.py:187-250 | there is none exactly if there are no values at all; it is waited for exactly if there are values but no primary one; and it cannot be told exactly if two primary values are current |
| `Validities.PrimaryEngagementPermutes` | mo_ldap_import_export/moapi.py:173-258 | for disjoint primary values, the primary engagement depends only on the collection of values of all engagements |
| `Validities.PrimaryEngagementIgnoresOrder` | mo_ldap_import_export/moapi.py:166-258 | permuting the engagements, and the values of each, changes nothing |
| `ClassCreation.MOAPI.LoadMoClassUuid` | mo_ldap_import_export/moapi.py:380-402 | the class that alone has the key, none exactly if no class has it, or an error for several |
| `ClassCreation.MOAPI.CreateMoClass` | mo_ldap_import_export/moapi.py:964-998 | undisturbed, a key in use is answered with its class and the store stays as it was; for a key not in use exactly one class is added, with the key and the facet, and its UUID is the answer; a key of several classes is an error; the lock is free afterwards |
| `ClassCreation.GetOrCreateIs` | mo_ldap_import_export/moapi.py:982-998 | so it is for the function the interleaved callers are compared with |
| `ClassCreation.CreatedInFacets` | mo_ldap_import_export/environments/main.py:323-345 | in every run, no class is created in a facet that does not exist |
| `ClassCreation.StepKeepsInvariant` | mo_ldap_import_export/moapi.py:964-998 | no step of any caller breaks mutual exclusion, the finding made under the lock, the answers given or the uniqueness of user keys |
| `ClassCreation.RunKeepsInvariant` | mo_ldap_import_export/environments/main.py:347-370 | nor does any run, and no class is ever changed or removed |
| `ClassCreation.OneClassPerKey` | mo_ldap_import_export/environments/main.py:323-370 | under any interleaving of any number of callers there is at most one class per user key, and all callers for a key get the same UUID |
| `ClassCreation.CreateIsAtomic` | mo_ldap_import_export/moapi.py:982-998 | a caller that creates does to the store, and returns, what the uninterrupted get-or-create would at that moment |
| `ClassCreation.NeverAmbiguous` | mo_ldap_import_export/moapi.py:380-402 | no caller is ever told that a user key is ambiguous |
| `ClassCreation.AnswerFacetIff` | mo_ldap_import_export/moapi.py:982-998 | the step that answers a caller gives a class of the facet it asked for exactly when, just before, the user key is not in use in another facet |
| `ClassCreation.FacetIsRespectedIff` | mo_ldap_import_export/environments/main.py:347-370 | so it is in every run, to its end; and a key in use in another facet at the start is so for every later caller |
| `ClassCreation.UndisturbedFacetIff` | mo_ldap_import_export/environments/main.py:347-370 | a call that nothing disturbs is answered with a class of the facet it asked for exactly when, before the call, no class of another facet has the key |
| `ClassCreation.OtherFacetIsReturned` | mo_ldap_import_export/environments/main.py:347-370 | otherwise it is handed that class |
| `CommonName.Split` | mo_ldap_import_export/usernames.py:18-24 | splitting at blanks loses nothing: joining the pieces gives the text |
| `CommonName.GeneratePersonName` | mo_ldap_import_export/usernames.py:18-24 | two to five parts: the surname after a beginning of the given name |
| `CommonName.Shorten` | mo_ldap_import_export/usernames.py:74-90 | the base has as many middle names as fit into 60 characters, from the first on, none if none fit, and is then cut |
| `CommonName.ShortNameIsKept` | mo_ldap_import_export/usernames.py:74-90 | a name that fits into 60 characters is its own base |
| `CommonName.NonEmptyIs` | mo_ldap_import_export/usernames.py:74 | the words that are not empty are kept in their order |
| `CommonName.CreateCommonName` | mo_ldap_import_export/usernames.py:54-104 | the result has at most 64 characters and is the first of 999 candidates that is free or the person's own; it fails exactly if there is none |
| `CommonName.ChoiceIsUnique` | mo_ldap_import_export/usernames.py:54-104 | only one name meets that description |
| `CommonName.CandidatesDiffer` | mo_ldap_import_export/usernames.py:69-72 | no two candidates are equal to the directory |
| `CommonName.CandidateIs` | mo_ldap_import_export/usernames.py:69-72 | the first candidate is the base itself, each other the base, an underscore and its number in decimal |
| `CommonName.AllowedIff` | mo_ldap_import_export/usernames.py:92-101 | a candidate is allowed exactly if no common name of the directory equals it but for case, or the person's own does |
| `CommonName.RegeneratingKeepsName` | mo_ldap_import_export/usernames.py:92-101 | generating the name again after the rename gives the same name |
| `CommonName.GenerateCommonName` | mo_ldap_import_export/usernames.py:116-126 | the same for the name of an employee; it fails exactly if all 999 candidates of its base are taken by others |
| `Decimal.DecIsInjective` | mo_ldap_import_export/usernames.py:69-72 | no two counters are written alike |
| `Decimal.NumberOfDec` | mo_ldap_import_export/usernames.py:69-72 | a counter is written in decimal, without leading zeros |
| `Usernames.CombiIs` | mo_ldap_import_export/environments/generate_username.py:174-248 | a combination gives a username exactly if each of its positions gives a character, and then just these |
| `Usernames.CombiIff` | mo_ldap_import_export/environments/generate_username.py:174-248 | these are, lowered, the next character of the first name for an F, of the last name for an L, and of the middle name of that number for a digit; so a combination gives nothing exactly if such a name is missing or used up, or there are fewer than two names |
| `Usernames.TryIff` | mo_ldap_import_export/environments/generate_username.py:310-341 | the usernames to try for a combination are its pattern with each digit from 2 to 9 for the X, or the pattern itself without one, unless the pattern without its X is forbidden |
| `Usernames.Permutations` | mo_ldap_import_export/environments/generate_username.py:310-324 | a pattern with an X is tried with the digits 2 to 9 in its place, in that order, any other only as it is |
| `Usernames.CandidateIs` | mo_ldap_import_export/environments/generate_username.py:251-324 | every username to try is as long as its combination and consists of letters and the digits 2 to 9 |
| `Usernames.NameFixer` | mo_ldap_import_export/environments/generate_username.py:251-284 | cleaned names consist of the letters a to z |
| `Usernames.CleanedIs` | mo_ldap_import_export/environments/generate_username.py:270-279 | cleaning keeps, in order, exactly the letters a to z, and where vowels are removed exactly those that are none |
| `Usernames.NameFixerIs` | mo_ldap_import_export/environments/generate_username.py:275-284 | vowels are removed from all names but the first, if at all |
| `Usernames.CreateUsername` | mo_ldap_import_export/environments/generate_username.py:287-377 | the first allowed username in the order of the combinations and then of the digits, each position being as its combination says; failure exactly if none is allowed |
| `Usernames.AllowedIff` | mo_ldap_import_export/environments/generate_username.py:35-145 | a username is allowed exactly if it is no login name in any case and, should names in MO count, reserved for nobody, or for the employee alone where old names may be used again |
| `Usernames.ExtractLetters` | mo_ldap_import_export/environments/generate_username.py:409-465 | three letters a to z: the first letter of the first piece and two consonants of the rest, or an error exactly if these are missing |
| `Usernames.SplitIs` | mo_ldap_import_export/environments/generate_username.py:410-416 | a part is split at every hyphen, plus sign and blank, and nowhere else |
| `Usernames.TooFewIff` | mo_ldap_import_export/environments/generate_username.py:436-459 | there are too few consonants exactly if a single piece has fewer than two, or several have none at all |
| `Usernames.ReserveStarts` | mo_ldap_import_export/environments/generate_username.py:443-455 | the consonants begin with those of the first later piece that has any; if none has, they are those of the first piece |
| `Usernames.ReserveEnds` | mo_ldap_import_export/environments/generate_username.py:443-455 | after those of all later pieces come those of the first piece, but without as many as the last piece has |
| `Usernames.NumberedCount` | mo_ldap_import_export/environments/generate_username.py:486-488 | as many suffixes make as many distinct names |
| `Usernames.GenerateUsernamePermutation` | mo_ldap_import_export/environments/generate_username.py:468-514 | the search ends within one step more than there are occupied names and returns the letters with the least suffix that is free |
| `Usernames.FreeIff` | mo_ldap_import_export/environments/generate_username.py:486-514 | a name is free exactly if it is allowed and equals no forbidden name but for case |

## Left out

- Rendering of Jinja templates and the template environment: a rendering is a value, a skip, a requeue or an error, given from outside.
- ldap3, GraphQL, HTTP, the database and asyncio: only their abstract store operations, atomic commits, locks and exclusive handling per person are kept. The library functions for escaping, paging and parsing names are modelled from RFC 4515, RFC 2696 and RFC 4514.
- The generated GraphQL client, the CLI, the FastAPI routes, health checks and settings validators: thin wrappers.
- The assertion control is built by the code but not passed to the modify operation (mo_ldap_import_export/ldapapi.py:393-448), so nothing is claimed about conditional writes.
- Dry runs, logging, and the legacy bypass of the discriminator (mo_ldap_import_export/ldap.py:484-533): single branches.
- Attributes of ancestors in a new entry's name, such as `ou` and `dc`: new entries have attributes outside the name or in its first component.
- Time zones and daylight saving: MO dates are day numbers, LDAP times whole seconds. A termination takes effect in the model at once, where MO keeps the object until the end of the day.
- Filters with extensible, approximate or ordering matches, which the printer never writes; well-formedness of UTF-8; attribute names that differ in case when a filter is evaluated.
- Events without UUID or modification time are modelled in `EventPoller.Poll` and `EventPoller.GenerateEvents`, but not in the state machine, where every entry has both.
- Accounts are identified by their unique id in `Correlation.dfy`; a lookup that races with a rename by a third party is not modelled there. A person's CPR number and the search by it are read at one moment, and an account is written in one step (its two operations are the subject of `LdapWriter.dfy`).
- `create_user_trees` (mo_ldap_import_export/import_export.py:198-231): whether creation is allowed is given from outside.
- Classes created by other processes, which the lock does not cover.
- MO's consolidation of equal neighbouring versions, `fraction` and `seniority` of objects, which are not uploaded or read back, and coercions by pydantic: a rendered value is what the object will hold.
- MO's keeping of the stored value where an edit sends null for an attribute that is no extension: an edit stores the object as uploaded. For a mapped optional attribute that renders empty, `MoImport.ImportConverges` rests on this.
- LdapWriter.LDAPAPI.AddLdapObject: of two keys that differ in case only and are not part of the name, the last counts; what LDAP does with both is not modelled.
- `_for_each_` mappings repeat a single import; the import of a list is not stated separately.
- Correlation.NoSecondAccount: speaks of accounts created by the export; `Correlation.NoAccountBesideCorrelated` covers any account a link or the CPR number leads to, throughout.
- That a call of `Export.DataLoader.ListenToChangesInEmployees` is a run of the steps of `Correlation.dfy` is not stated as a lemma: the one fixes the effect of an undisturbed call, the other every interleaving.
- LdapWriter.EscapeRdn: a naming value that is a single blank, to which the library adds two backslashes; escaping follows section 2.4 of RFC 4514 here. An empty naming value fails, as there.
- The field `uuid` of a mapping is rendered with the others in the source; here it is kept apart from them, and a conversion is given the id.
- Usernames.CreateUsername: the configured replacements and the lowering of names are one given function; MO and LDAP are read as fixed sets of names during a search.
- CommonName.RegeneratingKeepsName: names are folded character by character, without the special lower case of a final sigma.
- Export.ExtractUniqueLdapUuids: which texts read as UUIDs is given from outside; `Export.ParseUuid` models the form of 32 digits with hyphens, not braces and URN prefixes.
