# Verified models of Beaker's algorithms

Beaker is a lab-automation server. This project models, in Dafny, the parts of it that decide something intricate, and
proves what they are for:

- **Host filters** (`HostFilter*.dfy`). The XML of a recipe's `<hostRequires/>` is a tree of and/or/not and leaf
  elements. It is compiled to an SQL condition with joins, it filters OpenStack flavors, and it has a quick pre-check.
  The compiled condition is evaluated in the three-valued logic of section 8.12 of ISO/IEC 9075:1992. The recursive
  reading `Reading` is an independent definition of what a tree should mean, and `HostFilterElements` and
  `HostFilterPrecheck` say, tag by tag, what a filter of one element asks of the data of a system and of a flavor. The
  clauses, records, rows and joins of the model stand for the SQLAlchemy objects.
- **Install options** (`Shlex.dfy`, `ShellWords.dfy`, `Install*.dfy`, `Layers.dfy`). Kickstart metadata and kernel
  options are parsed from and printed to one shell line (section 2.2 of the Shell Command Language, IEEE Std 1003.1),
  and layers of them override one another. `ShellWords` defines independently which lines spell which words, and
  `InstallWords` what the words mean.
- **Configuration files** (`Py*.dfy`). A recursive-descent parser over Python tokens. `PySyntax` defines the accepted
  language independently, as syntax trees that carry their own layout, and `PyLiterals` how values are written in it.
- **CSV** (`CsvInstall.dfy`, `CsvSets.dfy`). Export and import of install options, and rows for pools and exclusions
  together with the activity they record.
- **Messaging** (`Messaging.dfy`). A handler per broker, all of them sharing one list of messages, and failover between
  brokers.
- **Dynamic virtualisation** (`DynamicVirt.dfy`). Networks and machines created in steps and rolled back on failure.
- **Smaller parts**: the migration of status history to intervals (`StatusDurations.dfy`), the job matrix
  (`JobMatrix.dfy`), paging (`Paging.dfy`) and the repeating timer and those who stop it (`RepeatTimer.dfy`).

Code that changes state step by step is a class or a loop, proved equal to a function of the old state. The properties
are then lemmas about those functions. The timer and the threads that stop it are a transition system, since it is
their interleaving that matters.

## What turned out not to hold

Some properties that one would expect are false of the code. For each of them, one lemma gives an input or a way to make
one, and another gives the exact condition under which the property holds. Where the condition is exact for the parts of
a filter only, or for some filters only, that is said under "Left out".

- A selected system does not always stay selected once a missing value becomes known. A missing hypervisor counts as
  the empty text (`HostFilterNulls.UnknownHypervisorIsNone`), a system that was never inventoried can be asked for
  (`HostFilterNulls.NeverInventoriedIsDropped`), and a disk of unknown model passes a negated condition on the model
  (`HostFilterNulls.UnknownDiskModelPasses`). `HostFilterNulls.LeafStability` says exactly which leaves are affected and
  `HostFilterNulls.DiskStability` exactly which disk elements, separately for true and for false outcomes.
  `HostFilterNulls.SelectedStaysSelected` lifts this to trees.
- Comparisons with NULL cannot always be read as false. They cannot under a not
  (`HostFilterTwoValued.NullEscapesNegation`), nor for an inventory that was not on a given day
  (`HostFilterTwoValued.NeverInventoriedEscapesDate`). `HostFilterTwoValued.TwoValuedLeaves` says exactly which leaves
  can be read in two values and `HostFilterTwoValued.TwoValuedDisks` exactly which disk elements, and
  `HostFilterTwoValued.TwoValuedSelection` lifts this to trees.
- A date compared by `<=` does not include the day itself, as the other comparisons would have it, but only the first
  second of it (`HostFilterLeaves.ComparesWholeDaysUnless`, `HostFilterLeaves.SecondSecondIsLater`).
- A `<not>` with several children is negated as a conjunction for the inventory and as a disjunction for OpenStack
  (`HostFilterLeaves.NotReadingsAgreeIffKidsDo`, `HostFilterLeaves.NotOfTwoDiffers`).
- An alternative can be lost to the inner join of another alternative
  (`HostFilterJoins.AlternativesNeedEveryRelation`). Nothing is lost if every relation joined is guaranteed by what is
  asked for (`HostFilterJoins.GuaranteedIsItsReading`), and for filters made of alternatives only then
  (`HostFilterJoins.AlternativesLoseNothingIff`).
- A host filter that passes the pre-check may still match no flavor (`HostFilterFlavors.PrecheckIsNotSufficient`);
  `HostFilterPrecheck.CheckIff` says exactly what the check decides.
- Printed install options do not parse back if a list has fewer than two elements or contains None
  (`InstallOptions.RoundTrip`), if a key is not plain (`InstallRoundTrips.WholeRoundTrip`), or, printed without quotes,
  if any value needed some (`InstallRoundTrips.UnquotedRoundTrip`); `InstallRoundTrips.LostOptions` gives instances.
- Overriding depends on the iteration order of a dict that both sets and deletes a key
  (`Layers.OrderIrrelevantIffNoConflict`, and `Layers.ReducedOrderFreeIffSettled` for whole stacks of layers).
- Overriding is not associative (`Layers.NotAssociative`); when it is, is decided key by key
  (`Layers.AssociativeIffAlike`).
- Exported install options are not rebuilt if a family or an update has an empty name
  (`CsvInstall.ExportThenImport`, `CsvInstall.UnnamedFamilyIsLost`).
- The status intervals do not always agree with the log. The second of two changes at the same time is lost
  (`StatusDurations.SimultaneousChangeIsLost`), and so is a change logged before the addition of the system
  (`StatusDurations.EarlyChangeIsLost`). `StatusDurations.RefinesIffGroupsKept` gives the condition on the log.
- A failed creation of a machine can leak its network and its floating IP even though no deletion fails, because the
  deletion of the instance is not waited for (`DynamicVirt.VirtManager.AbandonInstance`). The destruction of a machine
  can leave things behind even though no deletion fails; `DynamicVirt.VirtManager.DestroyVm` says when, and what.
- The inferred count is wrong for a page beyond the end of the rows or before the first page
  (`Paging.InferredCountIsRight`, `Paging.WrongCounts`).
- A timer that is only stopped before its thread has started never stops (`RepeatTimer.EarlyStopIsLost`,
  `RepeatTimer.EarlyStopTrace`, `RepeatTimer.ExitsOnlyIfStoppedInTime`).

## Model

| member | source | states |
|---|---|---|
| HostFilterMeaning.CompilationPreservesMeaning | Server/bkr/server/needpropertyxml.py:133-250 | For any tree of elements, the compiled query selects a system iff every relation inner-joined by any leaf, whatever its boolean position, exists for it, and the recursive reading without the clause-less children is true |
| HostFilterMeaning.CompiledMeans | Server/bkr/server/needpropertyxml.py:158-250 | There is a clause iff some descendant contributes one, and the clause has, in three-valued logic, the outcome of the recursive reading |
| HostFilterMeaning.JoinsMean | Server/bkr/server/needpropertyxml.py:830-837 | A relation is inner-joined iff some leaf outside disk elements asks for it, under any nesting of and, or and not |
| HostFilterMeaning.DiskClauseMeans | Server/bkr/server/needpropertyxml.py:252-259 | Inside a disk element, a child gives a condition unless it is a leaf without value, and the condition means the recursive reading of one disk |
| HostFilterElements.CompareNumbers | Server/bkr/server/needpropertyxml.py:81-88 | The operators compare numbers as their signs say |
| HostFilterElements.CompareTexts | Server/bkr/server/needpropertyxml.py:81-88 | The operators compare texts in dictionary order |
| HostFilterElements.NumberElementSelects | Server/bkr/server/needpropertyxml.py:713-724 | A filter of one number element (memory, processors, cores and the other cpu figures, NUMA nodes) selects the systems that have the relation and a known number that compares with the value by the element's own operator; without a value, or with zero, all |
| HostFilterElements.TextElementSelects | Server/bkr/server/needpropertyxml.py:585-596 | Likewise one text element (host name, lab controller, lender, vendor, model, location, serial number, owner, user, borrower, power type, cpu vendor and model name) |
| HostFilterElements.ChoiceElementSelects | Server/bkr/server/needpropertyxml.py:546-583 | The type and the status are compared for equality whatever the operator is |
| HostFilterElements.HyperElementSelects | Server/bkr/server/needpropertyxml.py:985-999 | Hyperthreading can be asked for, and needs a cpu record |
| HostFilterElements.HypervisorElementSelects | Server/bkr/server/needpropertyxml.py:522-527 | A missing hypervisor, and a missing value, are compared as the empty text |
| HostFilterElements.AutoProvElementSelects | Server/bkr/server/needpropertyxml.py:448-454 | Automatic provisioning asks for a power supply and a lab controller |
| HostFilterElements.DiskSpaceElementSelects | Server/bkr/server/needpropertyxml.py:1204-1221 | Disk space compares the total of the known sizes with the value, if any size is known |
| HostFilterElements.DiskCountElementSelects | Server/bkr/server/needpropertyxml.py:1224-1236 | The disk count compares the number of disks with the value |
| HostFilterElements.DiskElementSelects | Server/bkr/server/needpropertyxml.py:1181-1201 | A disk element with one attribute selects the systems that have a disk with such a model or figure; without a value, any disk |
| HostFilterElements.OtherElementSelects | Server/bkr/server/needpropertyxml.py:1238-1309 | The tags for pools, keys, architectures, devices, dates, distro compatibility and cpu flags select what those elements read as |
| HostFilterElements.ConnectiveElements | Server/bkr/server/needpropertyxml.py:158-250 | In every table of tags, and, or and not combine their children as they would be read in place of the connective |
| HostFilterSql.Filter | Server/bkr/server/needpropertyxml.py:158-250 | The loops that thread the joins through the children and collect their clauses compute the compiled clause, and append the joins of the tree in document order |
| HostFilterSql.FilterDisk | Server/bkr/server/needpropertyxml.py:1192-1201 | The disk loop collects the conditions of exactly the children that give one, in order |
| HostFilterNulls.SelectedStaysSelected | Server/bkr/server/needpropertyxml.py:158-250 | A selected system stays selected for every way of filling in NULL columns, its own or those of its relations, cpu flags, disks, devices and excluded distros, if each leaf and disk element keeps the outcome asked of it: true, or false under an odd number of nots |
| HostFilterNulls.LeafStability | Server/bkr/server/needpropertyxml.py:364-1113 | For each kind of leaf, exactly when a true (or a false) outcome survives every filling of NULL columns. The exceptions, each shown on coherent systems: hypervisor comparisons that depend on the text, automatic provisioning denied, whether there was an inventory, an absent cpu flag, an absent device unless asked for by class alone, compatibility with a distro, and disk space that growth can change |
| HostFilterNulls.DiskStability | Server/bkr/server/needpropertyxml.py:1192-1201 | A disk element that is true keeps so; one that is false keeps so iff it is true of a disk of which nothing is known, or of no disk whatsoever |
| HostFilterNulls.UnknownHypervisorIsNone | Server/bkr/server/needpropertyxml.py:522-527 | Asking for no hypervisor selects a system whose hypervisor is NULL, and drops it once the hypervisor is known |
| HostFilterNulls.NeverInventoriedIsDropped | Server/bkr/server/needpropertyxml.py:611-621 | Asking without a date for a system never inventoried selects it, and drops it once it is inventoried |
| HostFilterTwoValued.TwoValuedSelection | Server/bkr/server/needpropertyxml.py:158-250 | Selection equals two-valued evaluation with NULL comparisons read as false, if each leaf and disk element can be so read where it stands, under an even or an odd number of nots |
| HostFilterTwoValued.TwoValuedLeaves | Server/bkr/server/needpropertyxml.py:364-1113 | Exactly which leaves those are, of systems that have the relations joined: asked to be true, all but an inventory not on a given day; asked to be false, those about existence or about columns that are never NULL, the power type among them, and an inventory not on a given day |
| HostFilterTwoValued.TwoValuedDisks | Server/bkr/server/needpropertyxml.py:1192-1201 | Exactly which disk elements: those whose conditions read the same in two and in three values of every single disk |
| HostFilterTwoValued.WithoutNotTwoValued | Server/bkr/server/needpropertyxml.py:158-210 | In particular every filter without not elements and without such a date |
| HostFilterTwoValued.NeverInventoriedEscapesDate | Server/bkr/server/needpropertyxml.py:65-68 | A system never inventoried is not selected by asking for an inventory not on some day, though in two values it would be |
| HostFilterTwoValued.NullEscapesNegation | Server/bkr/server/needpropertyxml.py:235-250 | With not they differ: a system of unknown memory is selected neither by a memory filter nor by its negation |
| HostFilterJoins.EvidentLeaves | Server/bkr/server/needpropertyxml.py:830-837 | Exactly which leaves are true (or false) only of systems that have the joined relations anyway: all but automatic provisioning, the lack of a cpu flag when true, and the presence of one when false |
| HostFilterJoins.LeafPossible | Server/bkr/server/needpropertyxml.py:364-1113 | By their attributes alone, exactly which leaves are never true, or never false, of any coherent system: hypervisor comparisons that every text satisfies or none does, compatibility with a distro that is not named, and disk space or a disk count compared with a negative number |
| HostFilterJoins.LeafAlwaysHas | Server/bkr/server/needpropertyxml.py:830-837 | A leaf guarantees a relation iff it joins it and is such a leaf, or is one of those that never have the outcome |
| HostFilterJoins.DiskAlwaysHas | Server/bkr/server/needpropertyxml.py:1192-1201 | A disk element guarantees a relation iff it is asked to be true and no single disk satisfies it, so that it never is |
| HostFilterJoins.GuaranteedIsItsReading | Server/bkr/server/needpropertyxml.py:158-250 | For any tree, if each relation joined by some leaf is guaranteed by the tree (by all children where one decides, by one where all must agree), a system is selected iff the filter reads as true |
| HostFilterJoins.AlternativesLoseNothingIff | Server/bkr/server/needpropertyxml.py:201-250 | For filters in which one child decides all the way down (or true, not true, conjunction false, single children), the query selects what reads as true of all systems iff each relation joined is so guaranteed |
| HostFilterJoins.ConjunctionIsItsReading | Server/bkr/server/needpropertyxml.py:161-170 | For plain conjunctions of such leaves the inner joins lose nothing: a system is selected iff the filter reads as true |
| HostFilterJoins.AlternativesNeedEveryRelation | Server/bkr/server/needpropertyxml.py:201-210 | In an or, a system without a cpu record is dropped although the other alternative is true |
| HostFilterLeaves.KeyValueMeans | Server/bkr/server/needpropertyxml.py:402-439 | The four documented forms of key_value, and the ordering comparisons, ask for the presence or absence of the key with such a value |
| HostFilterLeaves.PoolMeans | Server/bkr/server/needpropertyxml.py:373-394 | A pool element asks for membership or its lack; without a value, for any pool or for none; an unknown pool is ignored |
| HostFilterLeaves.ArchMeans | Server/bkr/server/needpropertyxml.py:1035-1051 | An arch element asks for a known architecture or its absence, and is ignored otherwise |
| HostFilterLeaves.CpuFlagMeans | Server/bkr/server/needpropertyxml.py:1011-1023 | A flag element asks for a flag or for its absence, and needs a cpu record either way |
| HostFilterLeaves.DeviceMeans | Server/bkr/server/needpropertyxml.py:1094-1113 | A device element asks for one device with all the given attributes, or for the lack of any; without attributes it asks nothing |
| HostFilterLeaves.DateMeans | Server/bkr/server/needpropertyxml.py:55-76 | A time is compared with a date by whole days, except that `<=` reaches only to the start of the day; NULL is unknown |
| HostFilterLeaves.ComparesWholeDaysUnless | Server/bkr/server/needpropertyxml.py:69-74 | The comparison is by whole days iff the operator is not `<=` or the time is not within that day after its first second |
| HostFilterLeaves.LastInventoriedMeans | Server/bkr/server/needpropertyxml.py:611-621 | With a date the time of the inventory is compared with it; without, `==` asks for no inventory and `!=` for some |
| HostFilterLeaves.CompatibleMeans | Server/bkr/server/needpropertyxml.py:629-640 | A compatible system supports the architecture and excludes neither the family nor the version, or no version at all if none is given; an unknown architecture or a missing family matches nothing |
| HostFilterLeaves.UnrecognisedIsTransparent | Server/bkr/server/needpropertyxml.py:92-99 | In a conjunction, a wrapped unrecognised element and its children in its place select the same systems and flavors |
| HostFilterLeaves.UnknownTagIsTransparent | Server/bkr/server/needpropertyxml.py:92-99 | The same for elements: one with a tag that the table lacks may be replaced by its children, looked up in that table |
| HostFilterNulls.UnknownDiskModelPasses | Server/bkr/server/needpropertyxml.py:1192-1201 | A negated condition on the disk model selects a system with a disk of unknown model, and drops it once the model is known |
| HostFilterLeaves.ReadingsAgree | Server/bkr/server/needpropertyxml.py:839-848 | For leaves known to both, with at most one child per not, a flavor satisfies a filter iff the system with its memory and that many single-core processors does |
| HostFilterLeaves.NotReadingsAgreeIffKidsDo | Server/bkr/server/needpropertyxml.py:241-268 | For a not with several children, the two readings agree on a flavor iff all children match it or none does |
| HostFilterLeaves.SelectedIffMatched | Server/bkr/server/needpropertyxml.py:830-848 | For such filters the inventory query and the flavor filter select alike |
| HostFilterFlavors.FilterFlavors | Server/bkr/server/needpropertyxml.py:181-268 | The set loops keep exactly the flavors that satisfy the recursive predicate: and is all children, or some child, not no child, and the root asks for a disk of at least 10 |
| HostFilterFlavors.FilterLeaf | Server/bkr/server/needpropertyxml.py:726-732 | A leaf keeps exactly the flavors it matches; one that OpenStack knows nothing about keeps none |
| HostFilterFlavors.IsVirtualisable | Server/bkr/server/needpropertyxml.py:1326-1329 | The early returns of the pre-check compute the recursive check, and false if a system is forced |
| HostFilterFlavors.MatchImpliesVirtualisable | Server/bkr/server/needpropertyxml.py:148-155 | If any flavor with any lab controller matches, the check without force is true |
| HostFilterFlavors.PrecheckLosesOnlyForced | Server/bkr/server/needpropertyxml.py:1326-1338 | A filter with a non-empty result passes the whole pre-check iff it does not force a system |
| HostFilterFlavors.PrecheckIsNotSufficient | Server/bkr/server/needpropertyxml.py:261-273 | A filter that passes the check and matches no flavor |
| HostFilterPrecheck.FlavorElementMatches | Server/bkr/server/needpropertyxml.py:726-732 | A filter of one element keeps the flavors with a disk of at least 10 that have the memory, processors or disk size asked for, or are in the lab, or are KVM machines of the architecture asked for; any other element keeps none |
| HostFilterPrecheck.LeafCheckIff | Server/bkr/server/needpropertyxml.py:148-155 | A leaf passes the pre-check iff, with some number or lab controller name instead of its own, some flavor in some lab matches it |
| HostFilterPrecheck.CheckIff | Server/bkr/server/needpropertyxml.py:148-273 | A tree passes the pre-check iff some flavor in some lab matches it with other numbers, other lab controller names, or other contents of its nots |
| HostFilterPrecheck.ElementChecks | Server/bkr/server/needpropertyxml.py:148-155 | A filter of one element passes iff it is about a figure of flavors or a lab controller, or some flavor satisfies it as it is |
| Shlex.LexShellQuote | Server/bkr/server/installopts.py:41-41 | Whatever text is quoted, the shell lexer reads it back as that text, at the end of any word begun |
| Shlex.LexLosesSpecials | Server/bkr/server/installopts.py:18-18 | Splitting loses at least one character as soon as the line has a blank, a quote or a backslash outside quotes |
| Shlex.LexLosesMarks | Server/bkr/server/installopts.py:18-18 | Splitting never adds a quote or a backslash, and loses at least one as soon as the line has one |
| ShellWords.SplitsLine | Server/bkr/server/installopts.py:18-18 | A line of words, each run together from plain characters, characters behind a backslash, and texts in single or double quotes, is split into exactly the words meant; in double quotes only a double quote and a backslash can be escaped |
| ShellWords.RefusesOpen | Server/bkr/server/installopts.py:18-18 | A line that ends inside quotes or behind a backslash is refused, with the error that says which |
| ShellWords.SplitIsExact | Server/bkr/server/installopts.py:18-18 | Every line is spelled in one of these ways, and splitting gives a result iff a spelling of the line calls for it |
| InstallOptions.Parse | Server/bkr/server/installopts.py:16-35 | The loop over the words computes the dict in which a repeated key collects its values in order, or reports the lexing error |
| InstallWords.AbsorbedMeans | Server/bkr/server/installopts.py:19-34 | Each key has no value if it is only mentioned, a text if it is given once, and otherwise the list of all it is given, after a None if it was mentioned first |
| InstallWords.LineMeans | Server/bkr/server/installopts.py:16-35 | A line is parsed iff it spells complete words, and each key then has the value that those words give it |
| InstallOptions.PrintValue | Server/bkr/server/installopts.py:46-53 | A value is printed as one bare key, one setting, or one setting per list element in order |
| InstallOptions.Unparse | Server/bkr/server/installopts.py:37-55 | The loop over the keys prints the entries of all keys joined by blanks |
| InstallOptions.SplitPrinted | Server/bkr/server/installopts.py:37-55 | Any sequence of printed entries is split into exactly its words |
| InstallOptions.PrintThenParse | Server/bkr/server/installopts.py:16-55 | Any dict with plain keys reads back with the same keys, whatever the printing order, and with each value as it reads back by itself; unquoted too if no value needs quotes |
| InstallOptions.RoundTrip | Server/bkr/server/installopts.py:16-55 | Parsing the printed dict gives it back iff every list in it has at least two elements, all of them texts |
| InstallOptions.BareKeyRoundTrip | Server/bkr/server/installopts.py:16-55 | A dict of one bare key survives iff the key is non-empty and free of equals signs, blanks, quotes and backslashes |
| InstallRoundTrips.EntriesSpoil | Server/bkr/server/installopts.py:16-55 | Splitting printed entries whose keys have no single quotes, some other mark being in a key, loses a backslash or a double quote, or adds a single quote |
| InstallRoundTrips.ReadExactly | Server/bkr/server/installopts.py:16-55 | If a dict is read back, the words of the line have exactly its quotes and backslashes: no word is ignored, since each costs a blank |
| InstallRoundTrips.WholeRoundTrip | Server/bkr/server/installopts.py:16-55 | Any dict whose keys are non-empty and free of equals signs, blanks, quotes and backslashes, and whose lists have at least two elements, all of them texts, survives being printed with quotes; and no other dict does, unless it has single quotes both in a key and in a value |
| InstallRoundTrips.UnquotedRoundTrip | Server/bkr/server/installopts.py:37-55 | Printed without quotes, as kernel options are, any dict survives iff every key is plain, no value has a blank, quote or backslash, and its lists have at least two elements, all of them texts |
| InstallRoundTrips.NoneComesBackAsText | Server/bkr/server/installopts.py:46-53 | A None in a list is printed, and comes back, as the word None |
| Layers.Consolidate | Server/bkr/server/installopts.py:57-64 | The loop applies each pair of the overriding dict in iteration order; without conflict, each key is decided by a setting, else a deletion, else the base |
| Layers.OverrideIsMerge | Server/bkr/server/installopts.py:57-64 | Without conflict, the pairs applied in any order give the key-by-key merge |
| Layers.ConflictDependsOnOrder | Server/bkr/server/installopts.py:57-64 | A key both set and deleted is present or absent depending on the iteration order |
| Layers.OrderIrrelevantIffNoConflict | Server/bkr/server/installopts.py:57-64 | All iteration orders give one result iff the overriding dict has no such key |
| Layers.CombinedWith | Server/bkr/server/installopts.py:106-113 | The three dicts of a layer are overridden each by its own counterpart |
| Layers.Reduce | Server/bkr/server/installopts.py:115-118 | Layers are combined from the left, starting from no options |
| Layers.ReducedIsLastMention | Server/bkr/server/installopts.py:106-118 | If every conflicted key is mentioned again later, each ordinary key has the value of the last layer mentioning it or its deletion, absent if that deletes; no deletion marker is left |
| Layers.ConsistentIsSettled | Server/bkr/server/installopts.py:106-118 | So it is for layers none of which both sets and deletes a key |
| Layers.ReducedOrderFreeIffSettled | Server/bkr/server/installopts.py:115-118 | Reducing a stack of layers gives one result for all iteration orders iff every key that some layer both sets and deletes is mentioned again in a later layer |
| Layers.LastMentionsDetermine | Server/bkr/server/installopts.py:115-118 | Two reductions that hold the last mentions of the same layers are equal, whatever the iteration orders |
| Layers.AssociativeIffAlike | Server/bkr/server/installopts.py:106-113 | For overriding dicts without conflicts, grouping to the left and to the right agree in all iteration orders iff no key that the last dict sets has a deletion left beside it, and every other deletion is either left to be applied to the base or has nothing to delete there |
| Layers.NotAssociative | Server/bkr/server/installopts.py:106-113 | An instance where they differ: a deletion is consumed by the dict it is applied to |
| PyConfig.PyConfigParser.GetToken | Common/bkr/common/pyconfig.py:178-193 | Leaves the parser at the next token that is no comment, indentation or line end |
| PyConfig.PyConfigParser.SkipCommas | Common/bkr/common/pyconfig.py:310-315 | Leaves the parser at the first token that is not a comma |
| PyConfig.PyConfigParser.GetString | Common/bkr/common/pyconfig.py:211-229 | Gives the text, or the formatted text if a percent sign follows, and stops exactly after it |
| PyConfig.PyConfigParser.GetValue | Common/bkr/common/pyconfig.py:244-271 | Gives the value starting at the current token, or its error, and leaves exactly the tokens after it |
| PyLiterals.DigitsAreNumerals | Common/bkr/common/pyconfig.py:231-242 | Every text of digits is the decimal numeral, with or without leading zeros, of its value and of no other number |
| PyLiterals.SkippedTokens | Common/bkr/common/pyconfig.py:177-194 | Comments, indentation and line ends are skipped, between elements commas as well, and nothing else |
| PyLiterals.WrittenIsRead | Common/bkr/common/pyconfig.py:195-271 | A value written in any layout, as numerals with or without sign, quoted texts, constants, names and containers of these, is read back as that value, up to the tokens after it |
| PyLiterals.IntegersAreRead | Common/bkr/common/pyconfig.py:231-242 | Every integer is read from its decimal numeral, with a minus sign before it if it is negative |
| PyLiterals.TextsAreRead | Common/bkr/common/pyconfig.py:211-223 | Every text is read from that text in quotes |
| PyLiterals.NamesAreRead | Common/bkr/common/pyconfig.py:195-209 | The three constants are read as themselves and any other name as its setting; it is a key error if there is none or the name begins with an underscore |
| PyLiterals.OtherNumbersAreErrors | Common/bkr/common/pyconfig.py:231-242 | A number without a point that is no numeral is a value error |
| PyLiterals.SameKeyIff | Common/bkr/common/pyconfig.py:317-334 | Two keys are stored as one iff they are equal, True and False counting as 1 and 0 also inside tuples |
| PyLiterals.LaterEntryIsFound | Common/bkr/common/pyconfig.py:317-334 | Of two entries of a dict with the same key, the later one is found |
| PyLiterals.ContainerIsNoKey | Common/bkr/common/pyconfig.py:317-334 | A key that is or holds a list or a dict stops the reading |
| PyConfig.PyConfigParser.GetItems | Common/bkr/common/pyconfig.py:339-371 | The loop of lists and tuples reads all elements up to the closing bracket |
| PyConfig.PyConfigParser.GetDict | Common/bkr/common/pyconfig.py:317-337 | The loop of dicts reads all entries up to the closing brace, later keys replacing earlier ones |
| PyConfig.PyConfigParser.Load | Common/bkr/common/pyconfig.py:117-163 | Each assignment is stored before the next right-hand side is read; on an error, the settings are those stored before it |
| PySyntax.ParsesRendering | Common/bkr/common/pyconfig.py:244-371 | For every nested value in every layout, with commas missing, repeated or trailing and comments and line ends interspersed, reading gives its value or first error and stops exactly after it |
| PySyntax.ReadValue | Common/bkr/common/pyconfig.py:244-371 | Whatever was read as a value is some layout of a tree with that value, followed by exactly the tokens left |
| PySyntax.ParserIsExact | Common/bkr/common/pyconfig.py:178-371 | The parser reads a value and leaves certain tokens iff the stream is a layout of that value followed by them |
| PyPrograms.LoadsProgram | Common/bkr/common/pyconfig.py:139-163 | Loading a sequence of assignments, in any layout, runs them one after the other and stops at the first error |
| PyPrograms.LoadKeepsPrefix | Common/bkr/common/pyconfig.py:117-163 | Whatever the stream, what is kept is the run of a program at its start, and the error is that of the tokens after it; without an error those begin with the end marker |
| PyPrograms.LastAssignmentWins | Common/bkr/common/pyconfig.py:195-209 | Each name ends with its last assignment, evaluated in the settings just before it |
| PyLiterals.WrittenIsLoaded | Common/bkr/common/pyconfig.py:139-163 | Loading a whole file leaves each name with what the last assignment to it writes |
| PyPrograms.OtherwiseSyntaxError | Common/bkr/common/pyconfig.py:145-157 | A keyword, or a token that is no name, where an assignment should begin is a syntax error |
| PyPrograms.NoEqualsIsSyntaxError | Common/bkr/common/pyconfig.py:157-161 | A name without an equals sign is a syntax error |
| PyPrograms.UnassignedIsKept | Common/bkr/common/pyconfig.py:117-124 | Names that are not assigned keep their value |
| PyPrograms.LoadNeverStarves | Common/bkr/common/pyconfig.py:139-163 | A stream with an end marker never runs out of tokens, whatever errors it has |
| CsvInstall.System.WriteField | Server/bkr/server/CSV_import_export.py:768-772 | A column is written and recorded iff the file has it and it differs |
| CsvInstall.System.ImportRow | Server/bkr/server/CSV_import_export.py:682-784 | A row changes exactly the node it names, with blank parents made on demand, and records exactly the columns that differ; a row with unknown names, or an update without a family, changes nothing |
| CsvInstall.System.ImportAll | Server/bkr/server/CSV_import_export.py:682-784 | Rows are imported one after the other |
| CsvInstall.RowWritesColumns | Server/bkr/server/CSV_import_export.py:768-784 | The columns that the file has are written to the node that the row names, even empty ones; the others stay as they were |
| CsvInstall.RowLogsChanges | Server/bkr/server/CSV_import_export.py:768-782 | A change is recorded for exactly the columns that the row has and that differ |
| CsvInstall.OtherRowsAreSkipped | Server/bkr/server/CSV_import_export.py:682-721 | A row that names no known node changes and records nothing |
| CsvInstall.PlacedAt | Server/bkr/server/CSV_import_export.py:723-766 | Storing at one address makes the missing parents blank and leaves every other address alone |
| CsvInstall.SameTree | Server/bkr/server/CSV_import_export.py:791-816 | Trees that agree at every address are equal |
| CsvInstall.ExportArch | Server/bkr/server/CSV_import_export.py:791-816 | The generator with its one reused record gives one correct row for each node below an architecture, and no other |
| CsvInstall.Export | Server/bkr/server/CSV_import_export.py:675-679 | All architectures together: each node of the tree gives exactly one row, every row is that of a node, and no node is missed |
| CsvInstall.ExportCovers | Server/bkr/server/CSV_import_export.py:791-816 | The exported rows come from the tree and cover it |
| CsvInstall.RowShowsColumns | Server/bkr/server/CSV_import_export.py:786-816 | A printed row shows the names and columns of its node, the empty text for one that is unset |
| CsvInstall.ExportThenImport | Server/bkr/server/CSV_import_export.py:682-816 | Importing the exported rows into an empty system, in any order and even repeatedly, rebuilds the tree with None replaced by the empty text iff no family or update has an empty name |
| CsvInstall.ImportAgain | Server/bkr/server/CSV_import_export.py:768-784 | Importing them again changes nothing and records no activity |
| CsvSets.DeletesUnlessFalse | Server/bkr/server/CSV_import_export.py:33-41 | A deleted column deletes unless it is empty or spells false: the words no and 0 delete |
| CsvSets.PoolRowMeans | Server/bkr/server/CSV_import_export.py:951-978 | After a row the system is in the known pool that it names iff the deleted column is absent, empty, or spells false in any case between blanks; other pools stay |
| CsvSets.ExcludeRowMeans | Server/bkr/server/CSV_import_export.py:599-658 | After a row the known family or update that it names is excluded or not as the row spells it, in any case for families and exactly for updates; others stay |
| CsvSets.LastWriterWins | Server/bkr/server/CSV_import_export.py:951-978 | After any sequence of effective rows, each membership or exclusion is as the last row naming it asked, and as before if none does |
| CsvSets.LogReplays | Server/bkr/server/CSV_import_export.py:599-658 | Replaying the activity from the initial state never adds what is present or removes what is absent, and ends in the final state |
| CsvSets.System.ImportPool | Server/bkr/server/CSV_import_export.py:951-978 | A pool row has the effect it asks for on the membership and the log, and none if the pool is missing or unknown |
| CsvSets.System.RemoveExclusions | Server/bkr/server/CSV_import_export.py:651-657 | Every entry equal to the given one is removed and recorded, and no other |
| CsvSets.System.ImportExclusion | Server/bkr/server/CSV_import_export.py:599-658 | An exclude row has the effect it asks for; updates need True or False spelled exactly, families in any case |
| CsvSets.System.ImportPools | Server/bkr/server/CSV_import_export.py:951-978 | A file of pool rows applies their effects in order |
| CsvSets.System.ImportExclusions | Server/bkr/server/CSV_import_export.py:599-658 | A file of exclude rows applies their effects in order |
| Messaging.TimeoutHandler.OnTimerTask | Server/bkr/server/messaging.py:56-67 | A timer stops the container, and cancels the send timer if there is no connection |
| Messaging.TimeoutHandler.OnConnectionOpened | Server/bkr/server/messaging.py:69-74 | Cancels the connect timer and sends the whole list; raises if that timer is gone |
| Messaging.TimeoutHandler.SendMsgs | Server/bkr/server/messaging.py:79-85 | The loop sends every listed message once, in order, each pending under its own delivery |
| Messaging.TimeoutHandler.UpdatePending | Server/bkr/server/messaging.py:87-101 | Forgets one delivery; after the last one the send timer is off and the connection closed |
| Messaging.TimeoutHandler.OnSettled | Server/bkr/server/messaging.py:103-107 | Removes one occurrence of the settled message from the shared list and forgets the delivery |
| Messaging.TimeoutHandler.OnRejectedOrReleased | Server/bkr/server/messaging.py:109-117 | The message stays in the list and its delivery is forgotten |
| Messaging.TimeoutHandler.OnTransportTailClosed | Server/bkr/server/messaging.py:119-127 | Both timers are off afterwards |
| Messaging.TimeoutHandler.RunContainer | Server/bkr/server/messaging.py:210-216 | A broker's events are handled in order up to the first exception, and conservation is kept throughout |
| Messaging.SendAll | Server/bkr/server/messaging.py:210-224 | The loop visits the brokers in order with one shared list, stops once it is empty, and otherwise reports how many messages are unsent |
| Messaging.EventsKeepConsistency | Server/bkr/server/messaging.py:56-127 | Every event keeps conservation; handlers raise only for an outcome of a delivery that is not pending or an opening after the connect timer is gone |
| Messaging.ConnectionShowsEvents | Server/bkr/server/messaging.py:56-127 | After expected events the connection is closed iff a link or fatal error came or every message has had its outcome, the send timer is on iff the transport has not closed, no timer fired before the opening, and some outcome is missing, and the container is stopped iff some timer fired |
| Messaging.MessagesShowEvents | Server/bkr/server/messaging.py:76-119 | After expected events, what was sent is the whole list if the connection opened, and what was settled and bounced are the messages of the deliveries that the events name |
| Messaging.RunsIffExpected | Server/bkr/server/messaging.py:56-127 | From the events alone: no handler raises iff the connection opens at most once and not after the transport has closed, and each delivery of the list has at most one outcome, after that |
| Messaging.RaisedIffUnexpected | Server/bkr/server/messaging.py:210-216 | Across brokers: none raises iff the events of each broker visited are so, for the number of messages that the settlements before it have left |
| Messaging.BrokerConserves | Server/bkr/server/messaging.py:79-117 | After any events, the messages given to a broker are those still listed plus those it settled; once sent, those listed are the pending plus the rejected or released ones, all counted with multiplicity |
| Messaging.VisitsLinked | Server/bkr/server/messaging.py:210-224 | Each broker starts with exactly the list that the one before it left, and the error counts what is left in the end |
| Messaging.SendsOnlyUnsettled | Server/bkr/server/messaging.py:210-224 | A broker is sent all or nothing of its list, and never an occurrence that an earlier broker settled |
| Messaging.SettledIsNeverResent | Server/bkr/server/messaging.py:103-107 | Without repeated messages, no later broker is sent a settled message |
| Messaging.ReturnsIffAllSettled | Server/bkr/server/messaging.py:210-224 | A non-empty list is sent normally iff the events of every broker visited are expected and every message was settled by some broker; however it ends, each message is settled or left, as often as it was given |
| DynamicVirt.VirtNetwork.ConfigureNetwork | Server/bkr/server/dynamic_virt.py:479-486 | Whatever step fails, the cloud has gained exactly the resources that the fields record, all of them new |
| DynamicVirt.FreshIsSeparate | Server/bkr/server/dynamic_virt.py:479-486 | New resources exist beside the old ones, and nothing old depends on them |
| DynamicVirt.CleanupIsFree | Server/bkr/server/dynamic_virt.py:488-498 | In the order of the clean-up, interface, router, network, nothing stands in the way of a step except an instance that is still in the network, and deleting the network takes exactly its own subnet along |
| DynamicVirt.Cloud.Delete | Server/bkr/server/dynamic_virt.py:488-501 | No caller asks twice for the deletion of a resource; a deletion fails if the resource is absent or in use, or by a fault of the cloud |
| DynamicVirt.VirtNetwork.Cleanup | Server/bkr/server/dynamic_virt.py:488-501 | Never removes anything but what the fields record, and removes all of it iff no deletion fails and no instance is left in the network; if an instance is left and no deletion fails, exactly the network and the floating IP remain |
| DynamicVirt.VirtManager.AbandonInstance | Server/bkr/server/dynamic_virt.py:152-160 | After a failed step the cloud is as it was iff no deletion failed and no accepted deletion left the instance lingering; a lingering instance leaks its network and its floating IP |
| DynamicVirt.VirtManager.StartAndStop | Server/bkr/server/dynamic_virt.py:142-147 | Waits for the build, assigns the address, stops the instance and waits for that, in this order, up to the first failure |
| DynamicVirt.VirtManager.CreateVm | Server/bkr/server/dynamic_virt.py:131-160 | Succeeds iff no creation, read or wait fails, and then the cloud has gained exactly the recorded resources; otherwise the cloud is as it was iff no deletion failed and no instance lingers; the instance handed out was built, given its address and stopped |
| DynamicVirt.VirtManager.DestroyNetwork | Server/bkr/server/dynamic_virt.py:266-274 | Takes the network down step by step; an instance still in it leaves network and floating IP, a failing listing leaves the floating IP, and a failing deletion what comes after it; which of these happened is decided by what failed in the cloud |
| DynamicVirt.VirtManager.DestroyVm | Server/bkr/server/dynamic_virt.py:262-274 | Succeeds, and removes exactly the recorded machine's resources, iff in the cloud no deletion failed, no read failed, and no wait for the instance ended before it was gone; after any of these, exactly what is left |
| DynamicVirt.Cloud.AwaitDeletion | Server/bkr/server/dynamic_virt.py:232-245 | The wait passes if the instance is gone, and may pass although it is not, since any error ends it |
| DynamicVirt.VirtManager.CreateThenDestroy | Server/bkr/server/dynamic_virt.py:131-274 | A machine is created and destroyed iff in the cloud no call and no deletion failed and no wait ended early, and then the cloud is as it was |
| StatusDurations.PopulateStatusDurations | SchemaUpgrades/upgrade_0.6.8_system_status_duration.py:20-55 | The loop records a partition of the time since the system was added |
| StatusDurations.LoopPartitions | SchemaUpgrades/upgrade_0.6.8_system_status_duration.py:36-55 | For any log: contiguous intervals of positive length with differing adjacent statuses, starting at the addition and ending open |
| StatusDurations.OneIntervalCovers | SchemaUpgrades/upgrade_0.6.8_system_status_duration.py:53-54 | No time is covered twice |
| StatusDurations.SomeIntervalCovers | SchemaUpgrades/upgrade_0.6.8_system_status_duration.py:53-54 | Every time since the addition is covered |
| StatusDurations.RefinesIffGroupsKept | SchemaUpgrades/upgrade_0.6.8_system_status_duration.py:20-55 | For a log in order of time, every interval has the status of the last change at or before each time it covers iff the changes up to the addition lead back to the initial status, and of those at any later time the first to make a difference is to the last status |
| StatusDurations.DurationsRefineLog | SchemaUpgrades/upgrade_0.6.8_system_status_duration.py:26-52 | In particular whenever change times strictly increase after the addition |
| StatusDurations.SimultaneousChangeIsLost | SchemaUpgrades/upgrade_0.6.8_system_status_duration.py:44-48 | Of two changes at one time the second is lost |
| StatusDurations.EarlyChangeIsLost | SchemaUpgrades/upgrade_0.6.8_system_status_duration.py:31-48 | A change logged at or before the addition is lost, and the intervals disagree with the log from the start |
| StatusDurations.BeginsBroken | SchemaUpgrades/upgrade_0.6.8_system_status_duration.py:36-43 | Without a change, or if the first one does not say what was before, the system begins as broken |
| JobMatrix.CollectNames | Server/bkr/server/job_matrix.py:211-218 | Every task name, and every whiteboard under its architecture, is found, each whiteboard once |
| JobMatrix.FillCells | Server/bkr/server/job_matrix.py:253-298 | A grouped query adds one detail to exactly the occupied cells of its architecture and whiteboard |
| JobMatrix.GenerateData | Server/bkr/server/job_matrix.py:180-315 | Every occupied cell has exactly one detail with the figures of its tasks, and there is no other cell |
| JobMatrix.MatrixConservesTasks | Server/bkr/server/job_matrix.py:272-285 | Every recipe task is counted in exactly one cell: the cells of the matrix add up to the number of tasks |
| JobMatrix.ResultsAddUp | Server/bkr/server/job_matrix.py:219-225 | The figures by result of a cell add up to its total |
| JobMatrix.RowsAreTasks | Server/bkr/server/job_matrix.py:253-298 | Every task of every recipe has one row, with its name and result and the architecture and whiteboard of its recipe |
| JobMatrix.DetailShowsTasks | Server/bkr/server/job_matrix.py:272-298 | The detail of a cell shows how many tasks it has, and under each result how many have that result |
| JobMatrix.TaskR.AddResult | Server/bkr/server/job_matrix.py:28-32 | Stores the list of one cell and leaves all other cells alone |
| JobMatrix.TaskR.GetResults | Server/bkr/server/job_matrix.py:34-45 | Gives the list of one cell, or, without a whiteboard or with an empty one, exactly the details of all whiteboards |
| JobMatrix.MakeTaskRs | Server/bkr/server/job_matrix.py:300-315 | The objects built for the task names hold exactly the cells of the matrix |
| JobMatrix.TaskR.Display | Server/bkr/server/job_matrix.py:128-144 | The display finds the detail of a cell iff the cell is occupied, even for an empty or missing whiteboard |
| Paging.JsonCollection | Server/bkr/server/flask_util.py:61-124 | When a client is redirected, which rows a page has, and when a count is given or inferred |
| Paging.PagesArePrefix | Server/bkr/server/flask_util.py:110-117 | The first pages put together are the first rows, in order |
| Paging.PagesPartition | Server/bkr/server/flask_util.py:110-117 | Pages one to n give back all the rows, none dropped or repeated, iff n pages are enough for them |
| Paging.RowIsOnPage | Server/bkr/server/flask_util.py:110-117 | Exactly which rows a page has and in which place; pages before the first show the first |
| Paging.InferredCountIsRight | Server/bkr/server/flask_util.py:118-123 | The count inferred from a short page is the true one iff the page is numbered from 1 and does not start beyond the end |
| RepeatTimer.AtMostOneMoreCallback | Common/bkr/common/helpers.py:82-102 | In every interleaving with any number of calls of stop, at most one callback starts after the flag was set in time |
| RepeatTimer.StopIsHonoured | Common/bkr/common/helpers.py:82-102 | From then on the timer thread exits within seven of its own steps, at its next look at the flag, even if the event is cleared in between |
| RepeatTimer.CanMove | Common/bkr/common/helpers.py:86-102 | Until it exits, the timer thread can always take a step |
| RepeatTimer.PassReachesCallback | Common/bkr/common/helpers.py:88-97 | From a wait with flag and event unset, the next callback starts within four steps |
| RepeatTimer.UnstoppedGoesOn | Common/bkr/common/helpers.py:86-102 | Without any stop, every pass reaches the callback, and after it, unless it raises an exception, comes the next wait |
| RepeatTimer.WokenPassCallsNothing | Common/bkr/common/helpers.py:93-102 | A pass that finds the event set clears it and calls nothing |
| RepeatTimer.EarlyStopIsLost | Common/bkr/common/helpers.py:82-87 | Stops that all come before the reset of the flag are lost: without an exception, the thread never exits |
| RepeatTimer.ExitsOnlyIfStoppedInTime | Common/bkr/common/helpers.py:86-102 | Without an exception, the thread exits only if it was stopped in time |

## Left out

Deliberately weaker or narrower statements:

- HostFilterNulls.SelectedStaysSelected: for whole trees the condition on the leaves is sufficient only, because a tree
  can be insensitive to a leaf for reasons of logic (a leaf next to its own negation, say). For single leaves and for
  single disk elements the condition is exact.
- HostFilterTwoValued.TwoValuedSelection: likewise for whole trees; for single leaves and single disk elements the
  condition is exact.
- HostFilterJoins.GuaranteedIsItsReading: likewise for whole trees, as conjuncts can exclude one another; for single
  leaves and for filters made of alternatives the condition is exact.
- HostFilterLeaves.ReadingsAgree: compares the two readings on memory, processors and cores only, since other leaves
  mean different things to an inventory and to a cloud.
- InstallRoundTrips.WholeRoundTrip: leaves open whether a dict with single quotes both in some key and in some value
  could survive being printed with quotes. (A dict of one bare key cannot: `InstallOptions.BareKeyRoundTrip`.)

Modelled in a simplified form:

- Host filters: attribute texts are cast beforehand, so that a malformed number or date, an unknown operator, and an
  ordering comparison of an inventory with no date, which raise an exception, do not occur. The operator `like` is left
  out. Texts are compared character by character, without collations. Cpu speeds are scaled to integers, and times are
  in seconds. An empty and, or or not inside a disk element is read as an empty conjunction or disjunction. Which
  columns may be NULL is taken from the table definitions in `Server/bkr/server/model`, of the rows of collections and
  of the system itself. Of the columns of relations, the name of a power type is never NULL where the relation exists; a
  hypervisor's is not either, but is NULL for a system that has none, as it is joined by an outer join. Repeated joins
  of one relation count once. Flavor lists are sets. All elements are wrapped at once instead of on demand.
- Distro filters, which share the machinery of host filters, and `force` outside the pre-check.
- Install options: the order in which dicts are iterated is a parameter. Encodings, and comments in shell words (which
  are switched off), are left out.
- Configuration files: file imports stop the run. `%` formatting is kept symbolic and never fails. Floats keep their
  text. Escapes in strings are not interpreted, and an integer is a sequence of decimal digits. The list of keywords is
  a parameter. Lists and tuples share one loop.
- CSV: permissions, identity, power passwords, the web forms and rows of other types. Names are their own keys. A row is
  copied when it is yielded, since the generator reuses one dict. The two tables of exclusions are one list of tagged
  entries. The columns that exclude rows need are there.
- Messaging: SSL, logging and error texts. The container's start is part of the handler's constructor. Brokers come in
  the order in which they are tried, with the events of each.
- Dynamic virtualisation: Keystone, trusts, waiting times, and the mode with a fixed network. Every call may fail, and a
  failing call changes nothing. An instance lingers for the rest of the call, or goes at once or while it is waited for.
- Status history: status names are resolved beforehand, including the renamed one.
- Job matrix: the selection of jobs, equality of texts in the database, and the boxes shown.
- Paging: filtering, sorting, and negative page sizes.
- Repeating timer: each read or write of the shared flag or event is one step, and a wait ends at any time.

Not modelled at all: the web, XML-RPC and command-line interfaces, mail, login, kickstart templates, the scheduler, the
database layer, and checks of retention tags and products, which come down to a short case split.
