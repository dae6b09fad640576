# MoyenneCalc grade engine in Dafny

MoyenneCalc is a browser extension for Esprit students. It reads the grades
table of the student portal and computes averages. It works out one average
per module, an overall average over the modules ("Moyenne Générale
Individuelle") and averages per teaching unit (UE). It also lets the student
edit scores and credits, and merge or split UE groups. This project models
the engine inside the `EspritGradeCalculator` class of `content.js` and
proves properties of it.

The project has these modules:

- **Wrappers**: `Option`.
- **Text**: the JavaScript string operations the engine uses:
  - `includes`, `trim`, `toLowerCase`;
  - `replace` of the first comma;
  - `replace(/\s+/g, ' ')`;
  - `parseFloat` and `parseInt`, reduced to the decimal-prefix readers the engine needs.
- **Grades**:
  - the module record;
  - `parseGrade` and `calculateModuleAverage` with its four coefficient sets;
  - how the table's input boxes read a typed score or credit value;
  - `isProjetIntegrationModule` and the pass mark it selects.
- **Matching**:
  - `levenshteinDistance`, as a method over a two-dimensional array proved against a recursive edit distance;
  - `calculateSimilarity`;
  - `isModuleMatch`.
- **Assoc**: a dictionary whose keys keep the order in which they were first assigned. It models JavaScript objects used as maps (`groupedData`, `ueGroups`), where key order decides which UE matches first. Assignment to a key replaces the value in place or appends the key; `delete` removes the key. JavaScript lists keys that look like array indices ("3", "12") first, in numeric order; the model assumes no UE name or designation has that form (see "Left out").
- **Averages**:
  - the per-module averages;
  - the single overall record that `updateGeneralAverage` replaces or appends;
  - `recalculateGeneralAverage` and `recalculateAll`.
- **Retake**: the retake overlay of `handleRattrapageGrades`.
- **Groups**: `getModuleCredits`, `groupModulesByUE`, `mergeUEs` and `splitUE`, as functions on the dictionaries.
- **Table**: `parseTable`, over rows of cell texts.
- **Calculator**: the class `GradeCalculator`.
  - Its fields are `currentData`, `groupedData`, `ueGroups` and `isCalculated`.
  - Its methods change them in place, with loops where the source loops.
  - Each method is proved against the function that specifies it.
  - The invariant `Valid()` states that both dictionaries have distinct keys and that the records hold at most one overall record. Every method keeps it.

Behaviour of the source that the model keeps as written:

- `groupModulesByUE` divides a group's weighted score by the credits of all members, graded or not.
- `mergeUEs` divides by the credits of graded members only (`Groups.MergeMeanIgnoresUngraded` shows the two disagreeing).
- When `splitUE` splits a singleton group named like its own module, the final `delete` removes the group it just created (`Groups.SplitOwnSingletonLosesModule`).
- A module not placed in a configured UE gets a singleton group keyed by its designation. That group replaces any group with the same key, and the members of the replaced group drop out (`Groups.AssignOverwrites`, `Groups.SameDesignationLosesModule`). With fresh designations every real record lands in exactly one group: before the overall UE row is added (`Groups.GroupsPartition`), and after it too when no designation is "Moyenne Générale UE" and no configured UE is named "Moyenne Générale UE" (`Groups.GroupModulesByUEPartition`). A configured UE under that name would be overwritten by the overall UE row, which has no modules, and its members would drop out.
- `mergeUEs` followed by `splitUE` on the merged name does not restore key order: the two singletons come back after all other keys (`Groups.MergeThenSplitOrder`).
- `isProjetIntegrationModule` looks for the substrings "pi " and " pi", so "API REST" gets the pass mark 10 (`Grades.PassingMarkApiQuirk`).
- `handleGradeInput` does not check `isGeneral`. `handleCreditsChange` does.
- `recalculateModule` refreshes one average and then calls `recalculateAll`, which refreshes them all (`Averages.RecalculateModuleSubsumed`).

## Model

| member | source | states |
|---|---|---|
| Text.ContainsIff | content.js:218-241 | `includes` holds exactly when the pattern occurs at some position |
| Text.FirstIndex | content.js:191 | the index found holds the character and no earlier index does |
| Text.ReplaceFirst | content.js:191 | only the first occurrence of the character is replaced, length kept; no occurrence leaves the text as is |
| Text.Lower | content.js:165-172 | lower-casing works character by character and keeps the length |
| Text.LowerIdempotent | content.js:199-200 | lower-casing an already lower-cased name changes nothing |
| Text.Trim | content.js:89-96 | the trimmed text neither starts nor ends with white space |
| Text.TrimSlice | content.js:89-96 | the trimmed text is one slice of the input, with only white space before it and after it |
| Text.TrimFixesTrimmed | content.js:89-96 | trimming a text without outer white space returns it unchanged |
| Text.NormalizeNormalized | content.js:199 | after collapsing runs and trimming, white space appears only as single inner spaces |
| Text.TrimmedCollapsed | content.js:199 | trimming text that is already collapsed leaves it in normal form |
| Text.NormalizeFixesNormalized | content.js:199 | a name already in that form is left unchanged |
| Text.NormalizeIdempotent | content.js:199 | normalising twice is normalising once |
| Text.CollapseCollapsed | content.js:199 | `replace(/\s+/g, ' ')` leaves no run of two white-space characters and no white space other than a space |
| Text.NatText | content.js:1591 | the decimal text written for a number has only digits and denotes that number |
| Text.ParseFloat | content.js:192 | a number is read only from text with a digit in it |
| Text.ParseInt | content.js:1590 | an integer is read only from text with a digit in it |
| Text.ParseFloatDecimal | content.js:192 | "p.q" followed by anything that does not start with a digit reads as the decimal p.q |
| Text.ParseFloatInteger | content.js:192 | digits followed by a non-digit and non-point read as their integer value |
| Text.ParseIntNatText | content.js:1590 | `parseInt` of a number's decimal text gives the number back |
| Grades.ParseGrade | content.js:189-194 | empty text gives null; a number is read only from text holding a digit |
| Grades.ReplaceFirstComma | content.js:191 | the first comma becomes a point and the rest of the text is untouched |
| Grades.ParseGradeComma | content.js:189-194 | "p,q…" reads as the decimal p.q: the comma is the decimal separator |
| Grades.ParseGradeCommaExample | content.js:189-194 | "12,5" gives 12.5 |
| Grades.ParseGradeSecondCommaExample | content.js:189-194 | "12,5,3" gives 12.5: only the first comma is replaced |
| Grades.ParseGradeIntegerExample | content.js:189-194 | "14" gives 14 |
| Grades.CalculateModuleAverage | content.js:339-361 | the average is null exactly when the exam score is null |
| Grades.CoefsAreConvex | content.js:14-19 | each coefficient set sums to 1, weighs the exam, and gives 0 to a missing cc or tp |
| Grades.ModuleAverageIsWeightedSum | content.js:339-361 | the average is exam, 0.8·exam+0.2·tp, 0.8·exam+0.2·cc or 0.5·exam+0.2·cc+0.3·tp depending on which scores are present |
| Grades.ModuleAverageInRange | content.js:339-361 | scores in [0, 20] give an average in [0, 20] |
| Grades.ModuleAverageOfEqualScores | content.js:339-361 | when all present scores equal x the average is x |
| Grades.ModuleAverageMonotoneInExam | content.js:339-361 | raising the exam score never lowers the average |
| Grades.ModuleAverageExample | content.js:339-361 | cc 12 and exam 14 without tp give 13.6 |
| Grades.ParseGradeInput | content.js:760-770 | an accepted score lies in [0, 20] |
| Grades.GradeInputCleared | content.js:761-762 | the entry clears the score exactly when it is empty or "-" |
| Grades.GradeInputAgreesWithParseGrade | content.js:760-770 | a score x is accepted exactly when the text reads as x and x is in [0, 20] |
| Grades.CreditsFromInput | content.js:1590-1593 | the credits lie in [1, 20]: the value read when within range, 1 when unreadable or at most 1, 20 when at least 20 |
| Grades.CreditsRoundTrip | content.js:1590-1596 | typing a credit count from 1 to 20 gives that count |
| Grades.CreditsWriteBackStable | content.js:1594-1596 | writing the clamped value back into the box and reading it again gives the same count |
| Grades.PassingMark | content.js:565 | the pass mark is 10 exactly for integration-project modules and 8 otherwise |
| Grades.ModulePasses | content.js:563-567 | no status without an average; otherwise the module passes exactly when its average reaches its pass mark, 10 for the integration project and 8 for the rest |
| Grades.PassingMarkExamples | content.js:1572-1584 | "Projet d'Intégration" and "PI" need 10, "Algèbre" needs 8 |
| Grades.ProjectNameIsProject | content.js:1572-1584 | "Projet d'Intégration" is an integration-project module |
| Grades.AlgebraIsNotProject | content.js:1572-1584 | "Algèbre" is not an integration-project module |
| Grades.PassingMarkApiQuirk | content.js:1579 | "API REST" needs 10 because it contains "pi " |
| Grades.IsProjetIntegrationModule | content.js:1572-1584 | an empty name is never the project; its lemmas show it ignores case, accepts "Projet d'Intégration" and "PI", rejects "Algèbre" and accepts "API REST" |
| Grades.ProjectTestIgnoresCase | content.js:1572-1584 | the project test gives the same answer on a name and on its lower-cased form |
| Matching.Min3 | content.js:280-284 | the minimum is one of the three values and no larger than any |
| Matching.Min3Shift | content.js:281-285 | adding one to each of the three entries adds one to their minimum |
| Matching.EditDistanceBounds | content.js:265-291 | distance to the empty string is the other length; the distance lies between the length difference and the longer length |
| Matching.EditDistanceSymmetric | content.js:265-291 | the distance does not depend on argument order |
| Matching.EditDistanceSelf | content.js:265-291 | a string is at distance 0 from itself |
| Matching.DistBounds | content.js:265-291 | each matrix entry lies between the difference and the larger of its two prefix lengths |
| Matching.DistTranspose | content.js:265-291 | each matrix entry is the same with the strings and indices swapped |
| Matching.DistDiagonal | content.js:265-291 | a prefix of a string is at distance 0 from itself |
| Matching.LevenshteinDistance | content.js:265-291 | the matrix-filling loops return the edit distance |
| Matching.FillBorders | content.js:268-274 | the first column holds 0 .. length of str2 and the first row the distances from the empty prefix |
| Matching.FillRow | content.js:277-287 | after row i is filled, every entry up to row i is the edit distance of its prefixes, and later rows are untouched |
| Matching.CalculateSimilarity | content.js:254-262 | the similarity lies in [0, 1], and is 1 for two empty or two equal strings |
| Matching.SimilarityIsRelativeDistance | content.js:254-262 | the similarity is (L − d) / L with L the longer length and d the edit distance |
| Matching.SimilaritySymmetric | content.js:254-262 | the similarity does not depend on argument order |
| Matching.CommunicationRule | content.js:218-233 | two "communication" names match exactly when neither pairs f1 with a1 and both share f1 or both share a1 |
| Matching.SubstringMatches | content.js:236-238 | outside the communication rule, one name inside the other is a match |
| Matching.MatchSymmetric | content.js:216-251 | without aliases, matching does not depend on argument order |
| Matching.IsModuleMatch | content.js:216-251 | the communication rule decides for two communication names; otherwise containment, an alias, or similarity above 0.7 makes a match (its lemmas: symmetry, reflexivity, containment, the similarity threshold) |
| Matching.MatchReflexive | content.js:236-238 | a name without "communication" matches itself |
| Matching.SimilarityDecides | content.js:240-250 | when neither substring nor alias applies, names match exactly when similarity exceeds 0.7 |
| Matching.CommunicationF1A1Example | content.js:225-227 | "communication f1" and "communication a1" do not match |
| Matching.CommunicationA1Example | content.js:230-232 | two "communication a1" names match |
| Matching.CommunicationA1Name | content.js:218-233 | a name "communication a1 " plus a character other than f contains "communication" and "a1" but not "f1" |
| Assoc.Keys | content.js:369 | the keys of a dictionary, position by position, in the order of first assignment |
| Assoc.ValuesLookup | content.js:429 | with distinct keys, `Object.values` lists at each position the value that the key at the same position of `Object.keys` looks up |
| Assoc.Lookup | content.js:1471-1472 | a value is found exactly when the key is present |
| Assoc.Set | content.js:1492 | the key now maps to the value, other keys are unchanged, and a new key goes last |
| Assoc.Delete | content.js:1502-1503 | the key is gone, other keys are unchanged, and deleting a missing key changes nothing |
| Assoc.Without | content.js:1502-1503 | removing a key from a key sequence keeps exactly the other keys |
| Assoc.KeysDelete | content.js:1502-1503 | after `delete` the keys are the old keys without the deleted one, in their old order |
| Assoc.DeleteKeepsOrder | content.js:1502-1503 | with distinct keys, `delete` of a present key removes its one entry and keeps the entries before and after it in place |
| Assoc.DeleteConcat | content.js:1502-1503 | deleting from two concatenated dictionaries deletes from each |
| Assoc.WithoutConcat | content.js:1502-1503 | removing a key from concatenated key sequences removes it from each |
| Assoc.SetThenDeleteTwoKeys | content.js:1492-1503 | storing a key and deleting two others leaves the old keys without those two, in order, with the stored key appended when it is new |
| Assoc.SetTwoThenDeleteKeys | content.js:1537-1546 | storing two new keys and deleting a third leaves the old keys without the third, in order, then the two new keys |
| Assoc.LookupAt | content.js:1471 | with distinct keys, each entry is what its key looks up |
| Assoc.SetDistinct | content.js:1492 | assignment keeps keys distinct |
| Assoc.DeleteDistinct | content.js:1502 | deletion keeps keys distinct |
| Assoc.DeleteEntry | content.js:1502 | every entry left by `delete` is an entry of the original under another key |
| Averages.WithAverages | content.js:298-301 | each record gets its module average; the overall record is left alone |
| Averages.GeneralRecord | content.js:316-328 | the overall record is general, has no retake and no exam, carries the credit total, and its average is total/credits or 0 |
| Averages.FindGeneral | content.js:318 | the index found is the first general record; none means there is no general record |
| Averages.StripGeneral | content.js:823 | the filter keeps exactly the records that are not general |
| Averages.StripGeneralCounts | content.js:823 | each record that is not general keeps its number of occurrences, and general records keep none |
| Averages.StripGeneralConcat | content.js:823 | the filter works piece by piece, so the kept records stay in their order |
| Averages.UpdateGeneralAverage | content.js:315-336 | its lemma: with at most one overall record before, exactly one after, replaced in place or appended, every other record kept |
| Averages.IndividualAverages | content.js:294-336 | its lemmas: exactly one overall record whose average is the weighted mean of the refreshed averages, in [0, 20] when scores are |
| Averages.RecalculateGeneralAverage | content.js:1616-1628 | its lemma: on refreshed records it agrees with `calculateIndividualAverages` |
| Averages.RecalculateRecords | content.js:821-833 | its lemmas: the refreshed real records followed by one overall record; idempotent |
| Averages.ReplaceKeepsOneGeneral | content.js:774-786 | editing a record without changing whether it is general keeps at most one overall record |
| Averages.WithAveragesKeepOneGeneral | content.js:298-301 | refreshing the averages keeps at most one overall record |
| Averages.UpdateKeepsOneGeneral | content.js:315-336 | the overall record replaces the existing one in place or is appended, it is the only general record, and every other record is unchanged |
| Averages.IndividualAveragesOneGeneral | content.js:294-312 | afterwards there is exactly one general record, whose average is Σ moyenne·credits / Σ credits over graded real records |
| Averages.SumsSnoc | content.js:303-306 | one more record adds its contribution only when it has an average |
| Averages.WeightedSumBounds | content.js:303-306 | averages in [0, 20] and non-negative credits keep the weighted sum between 0 and 20·credits |
| Averages.GeneralAverageInRange | content.js:316 | the overall average lies in [0, 20] when averages do |
| Averages.IndividualGeneralInRange | content.js:294-316 | scores in [0, 20] give an overall average in [0, 20] |
| Averages.WithAveragesIdempotent | content.js:298-301 | recomputing module averages twice is recomputing them once |
| Averages.StripNoGeneral | content.js:823 | filtering records without a general one changes nothing |
| Averages.StripAppendGeneral | content.js:823 | filtering removes an appended overall record |
| Averages.IndividualAveragesAppends | content.js:294-336 | without an overall record, the computation appends one after the refreshed records |
| Averages.RecalculateRecordsShape | content.js:821-833 | `recalculateAll` leaves the refreshed real records followed by one overall record |
| Averages.RecalculateRecordsIdempotent | content.js:821-833 | recalculating twice is recalculating once |
| Averages.RecalculateModuleSubsumed | content.js:812-818 | refreshing one module before `recalculateAll` does not change its result |
| Averages.RecalculateGeneralAgrees | content.js:1616-1628 | `recalculateGeneralAverage` over refreshed records gives the same as `calculateIndividualAverages` |
| Averages.GeneralAverageExample | content.js:303-316 | averages 10, 14 and 8 with credits 3, 2 and 5 give (30 + 28 + 40) / 10 = 9.8 |
| Retake.CellGradesAt | content.js:144-146 | each cell is read with `parseGrade` after trimming |
| Retake.FirstRetakeGrade | content.js:144-152 | the grade found is the first cell from the scan start whose value lies in [0, 20]; none means no cell qualifies |
| Retake.RowGrade | content.js:143-152 | the grade of a retake row lies in [0, 20] |
| Retake.BlankCellSkipped | content.js:143-152 | a second cell without a grade is skipped and the third cell's grade in [0, 20] is taken |
| Retake.FirstRetakeAfterGap | content.js:145-152 | the scan passes over a missing grade and stops at the next one in [0, 20] |
| Retake.FindExact | content.js:158-160 | the first record whose lower-cased name equals the row's; none means no record does |
| Retake.FindMatching | content.js:163-167 | the first record that `isModuleMatch` accepts; none means no record does |
| Retake.ExactNameWins | content.js:157-167 | an exact case-insensitive name is chosen before any partial match |
| Retake.ApplyGradeEffect | content.js:154-175 | a row changes nothing, or it has a grade and a name and overwrites exactly the targeted record |
| Retake.ApplyGradeKeeps | content.js:154-175 | applying a grade keeps every record's name, credits and other scores, and keeps exam equal to retake on retaken records |
| Retake.RetakeRowEffect | content.js:134-175 | a row changes the records only when it has two cells, a non-empty name and a grade in [0, 20] |
| Retake.GradeOnTarget | content.js:169-172 | the targeted record gets exam = retake = the grade and is flagged as retaken |
| Retake.RetakeOnSameName | content.js:154-172 | a row naming a record exactly overwrites that record |
| Retake.RetakesKeep | content.js:136-185 | the overlay keeps the records and their names, credits and other scores, and keeps exam equal to retake for retaken records |
| Retake.ApplyGrade | content.js:154-175 | its lemmas: nothing changes without a grade or a name, otherwise exactly the target is overwritten; records, names, credits and other scores are kept |
| Retake.ApplyRetakeRow | content.js:134-175 | its lemma: a row acts only with two cells, a non-empty name and a grade in [0, 20] |
| Retake.ApplyRetakes | content.js:136-185 | its lemmas: without a table, or with a header only, nothing changes; the records keep names, credits and other scores |
| Retake.HeaderOnly | content.js:136 | a retake table with only a header changes nothing |
| Retake.AlgebraRowGrade | content.js:143-152 | the row "ALGÈBRE", "", "12,5" carries the grade 12.5 |
| Retake.AlgebraSameName | content.js:158-160 | "ALGÈBRE" and "Algèbre" are the same name case-insensitively |
| Groups.CatalogCredits | content.js:205-208 | a UE's credit entry for a name is found exactly when one of its modules has that lower-cased name, and it is the credits of the first such module |
| Groups.ConfigCredits | content.js:203-210 | credits come from the first UE, in key order, listing a module whose lower-cased name equals the key, and from that UE's first such module; no UE lists one exactly when there are none |
| Groups.GetModuleCredits | content.js:197-213 | its lemmas: 1 without configuration; otherwise the credits of the first configured module named like the normalised, lower-cased name, or 1; spacing does not matter |
| Groups.CreditsWithoutConfig | content.js:203-212 | without configured UEs every module is worth 1 credit |
| Groups.CreditsLookup | content.js:197-213 | the credits are those of the first configured module, by UE order then module order, named like the normalised, lower-cased name, or 1 when none is |
| Groups.CreditsIgnoreSpacing | content.js:199 | extra or outer white space in a name does not change its credits |
| Groups.SumsConcat | content.js:432-437 | weighted scores and credit totals add over concatenated member lists |
| Groups.ScoreSumBounds | content.js:432-437 | averages in [0, 20] keep a group's weighted score between 0 and 20·credits |
| Groups.FirstMatchingUE | content.js:385-397 | the UE found is the first, in key order, with a matching module; none means no UE matches |
| Groups.FirstMatchingUEAt | content.js:385-397 | a UE that matches, with no earlier one matching, is the one chosen |
| Groups.AppendMember | content.js:389 | the module goes to the end of the group |
| Groups.Assign | content.js:381-411 | every configured UE keeps a group while modules are placed |
| Groups.AssignPlacement | content.js:381-411 | a real module joins the first matching UE, or gets its own singleton group; nothing else changes; the general record is skipped |
| Groups.RecomputeAll | content.js:427-454 | each group is recomputed from its members, keys and order kept |
| Groups.InitialGroupsKeys | content.js:369-378 | the groups start as the configured UEs, in key order |
| Groups.InitialGroupsCover | content.js:369-378 | every configured UE has a group from the start |
| Groups.AssignKeepsKeyOrder | content.js:381-411 | placing modules never reorders or drops a group |
| Groups.GeneralUEPresence | content.js:456-463 | the "Moyenne Générale UE" row exists exactly when UEs are configured and the counted UE credits are positive |
| Groups.GeneralUEOnlyWhenCounted | content.js:456-463 | when no group is general, the "Moyenne Générale UE" row is added exactly when UEs are configured and their counted credits are positive |
| Groups.MemberGroupsNotGeneral | content.js:364-454 | before that row is added, no group is general |
| Groups.GroupsRecomputed | content.js:427-454 | each non-empty group's mean is its weighted score over the credits of all members |
| Groups.GroupMeanInRange | content.js:441-445 | members with averages in [0, 20] give a group mean in [0, 20] |
| Groups.DefaultGroupsAreSingletons | content.js:412-424 | without configuration each group holds one real module keyed by its designation |
| Groups.AssignAllSingletons | content.js:412-424 | the default assignment builds singleton groups only |
| Groups.GroupModulesByUE | content.js:364-464 | its lemmas: keys stay distinct; configured UEs come first in key order; each real record with a fresh designation is in exactly one group (`GroupModulesByUEPartition`, which also asks that neither a designation nor a configured UE be named "Moyenne Générale UE"); the overall UE row exists exactly when UEs are configured and credits were counted |
| Groups.SetMembers | content.js:399-409 | storing a group under a key drops the members of the group the key held and adds the new group's members |
| Groups.InitialGroupsEmpty | content.js:369-378 | the configured groups start with no members |
| Groups.AssignAllKeys | content.js:380-424 | placing records adds no key other than the existing ones and the designations of real records placed |
| Groups.AssignMembers | content.js:380-424 | one placement adds the record once to the members, unless it lands on an existing key |
| Groups.AssignAllMembers | content.js:380-424 | with fresh designations the members grow by exactly the real records |
| Groups.RecomputeAllMembers | content.js:427-454 | recomputing keeps every group's members |
| Groups.GroupsPartition | content.js:364-454 | before the overall UE row is added: with designations distinct and unlike configured UE names, the groups' members are exactly the real records |
| Groups.GroupModulesByUEPartition | content.js:364-464 | after the overall UE row is added too: with designations distinct and unlike configured UE names and the overall UE row's name, and no configured UE named like the overall UE row, the groups' members are exactly the real records |
| Groups.GroupsPartitionAt | content.js:364-454 | the same, counted for one record |
| Groups.GroupsPartitionDefault | content.js:412-424 | without configuration, distinct designations make the groups' members exactly the real records |
| Groups.GroupsHoldEachOnce | content.js:364-454 | each real record with a fresh designation sits in exactly one group, once |
| Groups.AssignOverwrites | content.js:399-409 | a record that matches no UE and is named like an existing group replaces it, and that group's members drop out |
| Groups.SameDesignationLosesModule | content.js:412-424 | without configuration, of two records with one designation only the later is grouped |
| Groups.UEPassingMark | content.js:672-681 | a UE row needs 10 exactly when its name or a member's designation names the integration project, and 8 otherwise |
| Groups.UEPasses | content.js:679-702 | the overall UE row has no status; any other row passes exactly when its mean reaches its pass mark, 10 for a project UE and 8 for the rest |
| Groups.SingletonPasses | content.js:672-702 | a module's singleton group needs the module's own mark and, when graded, shows the module's status |
| Groups.ProjectMemberSetsMark | content.js:672-681 | one project member holds its UE to 10, also after a merge with any group |
| Groups.GroupModulesDistinct | content.js:364-464 | the rebuilt `groupedData` has distinct keys |
| Groups.MergedName | content.js:1479 | the merged name differs from both operands' names |
| Groups.MergedCatalogCredits | content.js:1505-1510 | after a merge, `getModuleCredits` gives a merged member its own credits, when its designation is already in normal form, members sharing its lower-cased name share its credits, and no other UE lists that name |
| Groups.MergedConfigCredits | content.js:1505-1513 | writing the merged UE's catalogue and deleting both operands' entries makes the credit lookup find the listed credits |
| Groups.ConfigCreditsFromOneUE | content.js:203-210 | when exactly one UE lists a name, the credit lookup returns that UE's credits for it |
| Groups.MergeEffect | content.js:1469-1519 | both operands leave both dictionaries; "target + source" holds target members then source members with summed credits, and its `ueGroups` entry lists the catalogue of those members with the summed credits |
| Groups.MergeKeepsOthers | content.js:1469-1519 | every key other than the two operands and the merged name keeps its group and its configuration, whether or not the merge happens |
| Groups.MergeNoOp | content.js:1473-1476 | a missing or general operand leaves everything unchanged |
| Groups.MergeKeepsDistinct | content.js:1469-1519 | merging keeps both dictionaries' keys distinct |
| Groups.MergeMeanWhenAllGraded | content.js:1487-1489 | when all members are graded, the merged mean equals the recomputed group mean |
| Groups.MergeMeanIgnoresUngraded | content.js:1487-1489 | with an ungraded member, the merged mean (10) differs from the recomputed one (5) |
| Groups.SplitIntoPlaces | content.js:1527-1537 | after splitting, a member's name holds its singleton group, the last one of that name winning |
| Groups.SplitIntoOthers | content.js:1527-1537 | splitting leaves groups that no member is named after unchanged |
| Groups.SplitEffect | content.js:1522-1547 | the split name leaves both dictionaries; each member gets a singleton unless it shares the split name; other keys are unchanged |
| Groups.SplitOwnSingletonLosesModule | content.js:1527-1540 | splitting a singleton named like its module deletes that module's group |
| Groups.SplitNoOp | content.js:1524 | splitting a missing or general group changes nothing |
| Groups.MergeUEs | content.js:1469-1519 | its lemmas: both operands leave both dictionaries for the merged UE, other keys are kept in order, distinct keys stay distinct, and a missing or general operand changes nothing |
| Groups.MergeKeyOrder | content.js:1469-1519 | after a merge each dictionary's keys are the old keys without both operands, in their old order, with "target + source" appended when it was not a key already |
| Groups.SplitUE | content.js:1522-1547 | its lemmas: the name leaves both dictionaries, members get singletons, other keys are kept in order, and a missing or general group changes nothing |
| Groups.SplitKeyOrder | content.js:1522-1547 | after a split `ueGroups` keeps its other keys in order; `groupedData` keeps its other keys in order, followed only by members' designations |
| Groups.SplitGroupsKeyOrder | content.js:1537-1546 | giving members singletons and deleting the group keeps the other keys in order and appends only members' designations |
| Groups.MergeSingletons | content.js:1469-1519 | merging two singleton groups gives one group with the target's module then the source's and drops both configurations |
| Groups.SplitPair | content.js:1522-1547 | splitting a two-member group puts each member under its designation and keeps other keys |
| Groups.SplitPairGroups | content.js:1527-1540 | the same on `groupedData` alone |
| Groups.MergeThenSplit | content.js:1469-1547 | merging two singleton groups and splitting the result: every key of `groupedData` other than the merged name looks up as before, the merged name is gone, the two `ueGroups` entries stay deleted and every other entry is unchanged |
| Groups.MergeThenSplitOrder | content.js:1469-1547 | key order is not restored by that round trip: the other keys keep their order and the two singletons come back at the end, the target's first |
| Groups.SplitPairKeys | content.js:1537-1546 | splitting a two-member group whose designations are new keys appends them in member order after the other keys |
| Groups.SplitKeepsDistinct | content.js:1522-1547 | splitting keeps both dictionaries' keys distinct |
| Table.ParseTable | content.js:82-114 | its lemmas: one record per data row, in order, each fresh: not general, no retake, average 0, credits from `getModuleCredits` |
| Table.DataRows | content.js:86-88 | the rows read come after the header and have at least five cells |
| Table.DataRowsExact | content.js:86-88 | no row after the header with five cells or more is skipped |
| Table.DataRowsIncreasing | content.js:86-88 | the rows are read in strictly increasing row order |
| Table.ParseRowsOrigin | content.js:82-114 | record k comes from the k-th data row |
| Table.ReadRowsOrigin | content.js:86-111 | for any reader of a row, value k is what it reads from the k-th data row |
| Table.ParseRowsRead | content.js:86-111 | the records are what the row reader gives for each data row, in order |
| Table.RowScores | content.js:93-95 | the scores are `parseGrade` of the trimmed third, fourth and fifth cells |
| Table.ParsedRecordsFresh | content.js:97-110 | a fresh record is not general, has no retake, has average 0 and has the credits `getModuleCredits` gives |
| Table.UnconfiguredCredits | content.js:97-99 | with no UE configured, every record is worth 1 credit |
| Calculator.WithScore | content.js:774-786 | only the chosen score changes; an unknown field changes nothing |
| Calculator.AverageRecords | content.js:294-308 | the loop refreshes each record's average and sums its weighted score and credits |
| Calculator.AverageRecord | content.js:299-307 | one record gets its module average and adds its weighted score and credits when it has an average; the overall record is left as is |
| Calculator.SumRecords | content.js:1620-1625 | the loop sums the weighted scores and credits of the real records that have an average |
| Calculator.RetakesKeepOneGeneral | content.js:136-185 | the retake overlay keeps at most one overall record |
| Calculator.ScanRetakeGrade | content.js:143-152 | the column scan finds the row's retake grade |
| Calculator.ApplyRetakeRowTo | content.js:141-183 | one row of the retake loop applies the row's retake |
| Calculator.InitialUEGroups | content.js:369-378 | the loop builds the empty configured groups |
| Calculator.FindUE | content.js:385-397 | the inner loop finds the first matching UE |
| Calculator.AssignModules | content.js:381-411 | the loop places every module |
| Calculator.SingletonGroups | content.js:412-424 | the loop builds one group per real module |
| Calculator.SumMembers | content.js:433-438 | the loop sums members' weighted scores and credits |
| Calculator.RecomputeUE | content.js:428-446 | one group is recomputed |
| Calculator.RecomputeUEs | content.js:427-454 | every group is recomputed, and the UE totals are summed over counted groups |
| Calculator.RecomputeEntry | content.js:431-450 | one entry is recomputed, and it adds its mean times credits and its credits to the UE totals only when it has members and credits |
| Calculator.MergeGroups | content.js:1482-1499 | the merged group is built from target and source |
| Calculator.MergeLayout | content.js:1469-1519 | the merge happens exactly when both groups exist and are real; the result is `Groups.MergeUEs` on both dictionaries, with keys still distinct |
| Calculator.SplitMembers | content.js:1527-1537 | the loop gives each member, in order, a singleton group under its designation |
| Calculator.SplitLayout | content.js:1522-1547 | the split happens exactly when the group exists and is real; the result is `Groups.SplitUE` on both dictionaries, with keys still distinct |
| Calculator.GradeCalculator.constructor | content.js:4-12 | empty records, groups and configuration, not calculated |
| Calculator.GradeCalculator.ParseTable | content.js:82-114 | the loop reads the table as `Table.ParseTable` specifies |
| Calculator.GradeCalculator.UpdateGeneralAverage | content.js:315-336 | the overall record is replaced or appended, leaving exactly one; nothing else changes |
| Calculator.GradeCalculator.CalculateIndividualAverages | content.js:294-312 | records get their averages and exactly one overall record |
| Calculator.GradeCalculator.RecalculateGeneralAverage | content.js:1616-1628 | the overall record is recomputed from the stored averages |
| Calculator.GradeCalculator.HandleRattrapageGrades | content.js:116-185 | without a retake table nothing changes; otherwise each row's retake is applied in order |
| Calculator.GradeCalculator.GroupModulesByUE | content.js:364-464 | `groupedData` is rebuilt from the records and `ueGroups`; the records stay unchanged |
| Calculator.GradeCalculator.RecalculateAll | content.js:821-833 | the overall record is dropped, averages recomputed, exactly one overall record added and groups rebuilt |
| Calculator.GradeCalculator.RecalculateModule | content.js:812-818 | on a real record, the outcome is that of `recalculateAll`; otherwise nothing changes |
| Calculator.GradeCalculator.HandleGradeInput | content.js:754-794 | an invalid value changes nothing; an accepted one on an existing record sets the chosen score, then everything is recalculated |
| Calculator.GradeCalculator.HandleCreditsChange | content.js:1587-1613 | the clamped credits go to an existing real record, the overall record is recomputed and the groups rebuilt; otherwise nothing changes |
| Calculator.GradeCalculator.MergeUEs | content.js:1469-1519 | the merge happens exactly when both groups exist and are real; the result is `Groups.MergeUEs` on both dictionaries |
| Calculator.GradeCalculator.SplitUE | content.js:1522-1547 | the split happens exactly when the group exists and is real; the result is `Groups.SplitUE` on both dictionaries |
| Calculator.GradeCalculator.CalculateGrades | content.js:44-79 | no table changes nothing; no data stops after reading; otherwise averages and groups are computed and the calculator is marked as calculated |

## Left out

- The DOM: locating the tables by id, reading `tr`/`td` text, building and refreshing tables, and `updateModuleDisplay`. Both tables are parameters, as rows of cell texts, or `None` when absent.
- Notifications and console logging.
- The `try`/`catch` around `calculateGrades`.
- `originalTable` and the Chrome message listener set up in `init`.
- `validateGradeInput`, the drag-and-drop handlers (only the `mergeUEs` they lead to is modelled), and exports, PDF and printing. These are display and browser plumbing.
- The 500 ms debounce in `handleGradeInput`: the model recalculates at once.
- Text.ParseFloat: reads an optional sign, digits and an optional fraction. JavaScript's exponents, leading white space and `Infinity` are not modelled.
- Text.ParseInt: reads an optional sign and digits. JavaScript's leading white space and radix prefixes are not modelled.
- Text.Lower: lower-cases ASCII and Latin-1 capitals only, not all of Unicode.
- Text.IsSpace: covers ASCII white space and the no-break space, not every Unicode space that `\s` and `trim` recognise.
- Scores and averages are exact `real` numbers, so IEEE-754 rounding is not modelled.
- A record is held in `currentData` and in a group of `groupedData` as separate values. The source shares one object between them, so a later in-place edit of a record is seen through both. The model rebuilds the groups after every edit, as the source's handlers do.
- An index that `parseInt` cannot read (NaN) is treated like an out-of-range index: nothing changes.
- Keys that look like array indices ("3", "12"): JavaScript lists them before all other keys, in numeric order, while the model keeps every key in first-assignment order. A UE or module named with digits only would be visited in a different order.
- Lengths and positions (`length`, `includes`, the edit distance and the similarity) count Unicode scalar values, while JavaScript counts UTF-16 code units. They differ only for characters outside the Basic Multilingual Plane.
- A UE group's mean is always a number in the model, so the source's test of a null mean before the UE status (`createGroupedRow`) always passes.
- Text.Trim: its own contract states only that no white space is left at either end; that the result is a slice of the input with only white space cut off is the separate lemma `Text.TrimSlice`, so that proofs using `Trim` stay small.
- Averages.StripGeneral: its own contract states membership only; occurrence counts and order are the separate lemmas `Averages.StripGeneralCounts` and `Averages.StripGeneralConcat`.
- Calculator.GradeCalculator.HandleGradeInput: the field name is a `ScoreField` value, not the `data-type` text.
