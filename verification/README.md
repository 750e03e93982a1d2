# inetutils and ft_ping: models and proofs

Dafny models of the parts of this repository whose behaviour is hardest to
see from one function, with proofs about all inputs and all runs. Each model
follows the branches, constants and error conditions of its source; code that
works by changing state is modelled by classes and loops, proved against
functions about which the properties are then stated.

Run `dafny verify dfyconfig.toml` in this directory.

## What is modelled

**argp.** A program's options are a tree of argps (`ArgpOptions`).
- `HolEntries`, `ArgpHelp`, `HelpShadowing`: the help list. Entries and one
  shared string of short options are built table by table and merged; each
  entry's offset into the string tells which of its short options are not
  shadowed by earlier ones.
- `LexOrder`, `ArgpOrder`, `EntryRules`: the comparator that sorts the list,
  proved to be the lexicographic order of a key, hence a total preorder, and
  its rules one by one.
- `HelpList`: what the list of a tree is made of: groups, clusters, order.
- `HelpUsage`: from the tree to the sorted list, and over its own buffer to
  the usage line of short options without arguments.
- `ParserTables`, `ArgpConvert`: the counting pass, the storage layout and
  the recursive conversion that fills getopt's tables through moving cursors.
- `ArgpDispatch`, `ArgpShort`, `ArgpLong`: from what getopt returns back to the argp that
  declared it; help list and parser agree on who comes first, exactly when
  the condition of `HelpAndParserAgree` holds.
- `ArgpRun`, `RunStep`, `RunProtocol`, `RunOutcome`: a whole call of
  `argp_parse` with the user's parsers and getopt as arbitrary functions of
  what has happened so far, what each round does, the protocol that every
  parser sees, and what decides the result.

**FTP, both ends.**
- `NvtAscii`, `FtpTransfer`, `Streams`: ASCII transfers in both directions,
  SIZE, REST and resuming.
- `FtpReply`, `Decimals`: the server's reply printers and the client's reply
  reader, in step over any sequence of replies (section 4.2 of RFC 959).
- `FtpPassive`: passive replies (section 4.1.2 of RFC 959, section 3 of RFC
  2428, RFC 1639) from the server's printf to the client's scanf.
- `FtpTokens`: the client's command-line tokenizer and its buffer.

**ifconfig.** `IfTemplate`: the template scanner, its quiet and live modes,
and the meaning of a well-formed template. `QuietScan`: which texts a quiet
scan prints, and which are scanned past their end.

**ft_ping.**
- `PingChecksum`: the Internet checksum (RFC 1071).
- `PingRing`, `PingStats`: echo requests, the ring of send times against the
  log of all probes, matching of replies and ICMP errors, statistics.
- `PingPacing`: the preload burst and the paced event loop over whole runs.

`FirstSeen` holds the list lemmas that several modules use, `Wrappers` the
option datatype.

## Where code and comments disagree

- inetutils-2.0/lib/argp-help.c:879-882: the comment puts entries with a short
  option before those without; the code puts those without first, and so does
  the model.
- inetutils-2.0/lib/argp.h:172-174 says that no call follows ARGP_KEY_ERROR;
  inetutils-2.0/lib/argp-parse.c:649-651 calls every parser with ARGP_KEY_FINI
  after it, and so does the model.
- inetutils-2.0/lib/argp.h:160-170 ends every successful sequence with
  SUCCESS; a parser that answers it with an error keeps the groups before it
  from being called (inetutils-2.0/lib/argp-parse.c:641-644), so the proved
  protocol makes it optional, and `NeverToldIff` says exactly when it is
  missing.

## Properties that hold under a condition

- Help and parser agree on a key if and only if the argp that declares it
  first also gives it to getopt (`HelpAndParserAgree`): an alias of a
  documentation entry may have a short key that only help sees
  (`DocAliasCounterexample`).
- The short option string says of each option whether it takes an argument if
  and only if the next short option is not ':' (`ColonsFollowKey`,
  `ColonKeyCounterexample`).
- Long option values decode to what was encoded if and only if the key has 24
  bits and the group number is below 127 (`ValueRoundTrip`).
- An ASCII transfer is exact if and only if no NUL directly follows a CR
  (`TransferRoundTrip`).
- A passive reply comes back if and only if its body has fewer than 64
  characters (`PassiveRoundTrip`); long replies with some IPv6 addresses have
  more (`WideAddressCutOff`).
- A quiet template scan is silent if and only if the text behind the last
  closing brace opens no substitution when each '$' is passed over together
  with the character behind it (`QuietIffClosed`, `QuietArgument`);
  `UnclosedIsPrinted` is a family that fails. The same walk tells which
  templates are scanned past their end.
- A group is told of error or success in every run past initialisation unless
  a later group answers SUCCESS with an error (`NeverToldIff`,
  `FirstGroupNeverTold`).
- Call i of getreply reads reply i as long as no reply before it is a 421
  (`RepliesNeverLoseStep`); with one the client stops there
  (`ConversationInStep`).
- A reply to probe i is timed from probe i if and only if the ring still has
  it, that is until probe i + 65536 is built (`SlotOfProbe`).

## Model

| member | source | states |
|---|---|---|
| `ArgpOrder.EntryOrderIsTotalPreorder` | inetutils-2.0/lib/argp-help.c:792-902 | the four promises of the comparator's comment and antisymmetry of sign, for any three entries over any cluster forest |
| `ArgpOrder.HolEntryCmp` | inetutils-2.0/lib/argp-help.c:803-902 | the sign of the comparison is the lexicographic order of the entries' keys: base group, cluster path, inner group, names |
| `ArgpOrder.HolEntryNameCmp` | inetutils-2.0/lib/argp-help.c:841-902 | within one group and cluster: non-options last, then first character without case, lower case first, entries without a short option first, then long names without case |
| `ArgpOrder.NameKeyOrder` | inetutils-2.0/lib/argp-help.c:851-897 | the first name criterion on which two entries differ decides, in the order the code tries them |
| `ArgpOrder.HolClusterCmp` | inetutils-2.0/lib/argp-help.c:730-762 | clusters are ordered as their root-to-cluster paths, a path before its extensions, for clusters of any two depths |
| `ArgpOrder.CousinCmpIsPathOrder` | inetutils-2.0/lib/argp-help.c:705-728 | at equal depth the recursive comparison is the lexicographic order of paths of group rank and descending index |
| `ArgpOrder.SiblingCmpIsStepOrder` | inetutils-2.0/lib/argp-help.c:690-703 | among siblings: group rank, then the later child first |
| `ArgpOrder.GroupCmpIsKeyOrder` | inetutils-2.0/lib/argp-help.c:678-688 | groups are ordered 0, 1, ..., n, -m, ..., -1 and compare equal only when they are the same |
| `ArgpOrder.ClimbTo` | inetutils-2.0/lib/argp-help.c:738-753 | climbing finds the deeper cluster's ancestor at the other's depth, and what its path lacks is one or more steps |
| `ArgpOrder.ClusterKeyPrefixFree` | inetutils-2.0/lib/argp-help.c:735-737 | no cluster's closed path starts another's, so the cluster criterion never leaks into the next one |
| `ArgpOrder.ClusterAfterNone` | inetutils-2.0/lib/argp-help.c:822-825 | entries outside any cluster come before entries in one |
| `ArgpOrder.HolClusterBase` | inetutils-2.0/lib/argp-help.c:764-772 | the loop finds the ancestor just below the root |
| `ArgpOrder.CanonDocOption` | inetutils-2.0/lib/argp-help.c:774-790 | whether the name looks like a non-option after its blanks, and the tail it is sorted by |
| `ArgpOrder.StrCaseCmpIsFoldedOrder` | inetutils-2.0/lib/argp-help.c:891-896 | the case-insensitive comparison of long names is the lexicographic order of the folded, NUL-closed names |
| `EntryRules.EntryStages` | inetutils-2.0/lib/argp-help.c:805-839 | the criteria in their order: groups of the outermost clusters, clusters, inner groups, names |
| `EntryRules.GroupRule` | inetutils-2.0/lib/argp-help.c:678-688 | of two groups the one earlier in 0, 1, ..., n, -m, ..., -1 compares less |
| `EntryRules.OuterGroupRule` | inetutils-2.0/lib/argp-help.c:805-825 | entries outside clusters or in outermost ones stand by group, and in one group those outside clusters first |
| `EntryRules.InnerClusterRule` | inetutils-2.0/lib/argp-help.c:735-762 | entries of an inner cluster follow those of the cluster around it |
| `EntryRules.SiblingClusterRule` | inetutils-2.0/lib/argp-help.c:690-703 | of clusters below one parent the earlier group, and in one group the later child, comes first |
| `EntryRules.InnerGroupRule` | inetutils-2.0/lib/argp-help.c:835-839 | within one cluster entries stand by group, then by name |
| `EntryRules.DashFirstIff` | inetutils-2.0/lib/argp-help.c:774-783 | a name looks like an option exactly when a '-' follows its leading blanks |
| `EntryRules.CanonTailIs` | inetutils-2.0/lib/argp-help.c:784-790 | a documentation entry is sorted by its name from the first letter or digit on |
| `EntryRules.NonOptionRule` | inetutils-2.0/lib/argp-help.c:843-853 | non-options follow options |
| `EntryRules.FirstCharacterRule` | inetutils-2.0/lib/argp-help.c:859-882 | by first character, that of the short option or else of the long name, case aside; of one letter the lower case first; with the same one, an entry without a short option first |
| `EntryRules.NothingFirstRule` | inetutils-2.0/lib/argp-help.c:855-867 | an entry that shows neither a short option nor a long name comes first |
| `EntryRules.SameLetterTies` | inetutils-2.0/lib/argp-help.c:884-897 | entries with the same short option are not told apart by long names |
| `EntryRules.LongNameRule` | inetutils-2.0/lib/argp-help.c:884-897 | entries with long names only that start with the same character stand by name, case aside |
| `HolEntries.ShortIterate` | inetutils-2.0/lib/argp-help.c:555-581 | the callback is called on exactly the entry's visible options matched in the shared string, each with the option it is an alias of, in order, up to its first non-zero answer, which is returned |
| `HolEntries.UntilNever` | inetutils-2.0/lib/argp-help.c:555-557 | a callback that always answers 0 sees all of them |
| `HolEntries.MatchesAreKept` | inetutils-2.0/lib/argp-help.c:567-577 | what the callback sees are the visible ones among the matched options |
| `HolEntries.RealIsFirst` | inetutils-2.0/lib/argp-help.c:571-575 | in an entry made of an option and its aliases every match is reported with that option |
| `HolEntries.HolEntryFirstShort` | inetutils-2.0/lib/argp-help.c:612-626 | the first short key of the entry that is visible and not shadowed, or 0 |
| `HolEntries.FirstShortIs` | inetutils-2.0/lib/argp-help.c:612-626 | the key found is that of the first option shown, and 0 when none is |
| `HolEntries.FirstLongIs` | inetutils-2.0/lib/argp-help.c:628-638 | the name found is that of the first option that has one and is not hidden |
| `HolEntries.HolEntryFirstLong` | inetutils-2.0/lib/argp-help.c:628-638 | the first visible long name, or none |
| `ArgpHelp.FindChar` | inetutils-2.0/lib/argp-help.c:343-353 | found exactly when the character is in the half-open range |
| `ArgpHelp.CountSpace` | inetutils-2.0/lib/argp-help.c:461-468 | the first pass counts the non-aliases and the short options of the table |
| `ArgpHelp.OutlineSize` | inetutils-2.0/lib/argp-help.c:461-481 | the number of non-aliases is the number of entries the filling loop makes |
| `ArgpHelp.RoomForShort` | inetutils-2.0/lib/argp-help.c:461-503 | at every option the counted space still has room for its short key and the final NUL |
| `ArgpHelp.OutlineKeepsOpts` | inetutils-2.0/lib/argp-help.c:479-502 | the entries cut from a table hold exactly its options, in order |
| `ArgpHelp.OutlineGroups` | inetutils-2.0/lib/argp-help.c:484-490 | an entry has its option's group; a nameless and keyless header without one starts the group after the previous entry's, anything else stays in it |
| `ArgpHelp.FillEntry` | inetutils-2.0/lib/argp-help.c:481-501 | one entry takes an option and the aliases after it, and adds the short keys not yet in the string |
| `ArgpHelp.FillHol` | inetutils-2.0/lib/argp-help.c:477-503 | entries and string of a table: every entry with its group, cluster and offset, the string the first occurrences of the table's short keys, NUL-terminated |
| `ArgpHelp.MakeHol` | inetutils-2.0/lib/argp-help.c:437-507 | the new list is valid and describes the table |
| `ArgpHelp.Arena.HolAddCluster` | inetutils-2.0/lib/argp-help.c:509-531 | a new cluster with its group, index, parent and depth; the forest stays well formed |
| `ArgpHelp.AppendShort` | inetutils-2.0/lib/argp-help.c:998-1008 | one short key of the appended list is copied unless the first list has it |
| `ArgpHelp.AppendShorts` | inetutils-2.0/lib/argp-help.c:994-1009 | one entry's short options are merged within the space allocated |
| `ArgpHelp.AppendEntries` | inetutils-2.0/lib/argp-help.c:985-1012 | every entry of the appended list gets its offset in the merged string, which holds the first occurrences of both lists' keys |
| `ArgpHelp.PlacedAppend` | inetutils-2.0/lib/argp-help.c:980-1010 | offsets in a merged list: the first list keeps its own, the other's follow the keys before them |
| `ArgpHelp.Merge` | inetutils-2.0/lib/argp-help.c:956-1020 | merged entries and string are those of the concatenated lists |
| `ArgpHelp.HolAppend` | inetutils-2.0/lib/argp-help.c:932-1024 | appending keeps the list valid and concatenates what the two describe |
| `ArgpHelp.ClusterForChild` | inetutils-2.0/lib/argp-help.c:1036-1042 | a child with a group or header gets a new cluster, any other its parent's |
| `ArgpHelp.PlaceKeepsForest` | inetutils-2.0/lib/argp-help.c:1031-1046 | placing a tree keeps the forest of clusters well formed |
| `ArgpHelp.ArgpHol` | inetutils-2.0/lib/argp-help.c:1026-1047 | for every tree the list holds the entries of all its argps in preorder, each in the cluster its place gives it |
| `HelpShadowing.EntriesHoldAllOptions` | inetutils-2.0/lib/argp-help.c:1026-1047 | the entries of a tree hold exactly the tree's options in preorder |
| `HelpShadowing.KeptIsUnshadowed` | inetutils-2.0/lib/argp-help.c:493-501 | reading the string from an entry's offset matches exactly the options no earlier one shadows |
| `HelpShadowing.HelpShowsUnshadowed` | inetutils-2.0/lib/argp-help.c:558-581 | for every tree the string is the first-occurrence deduplication of the preorder list of short keys, and from each entry's pointer exactly its visible unshadowed short options are visited |
| `HelpShadowing.KeptInBuffer` | inetutils-2.0/lib/argp-help.c:565-577 | reading the list's buffer, with its NUL and whatever stands behind it, matches what reading the string in it matches |
| `HelpShadowing.KeepsMeansFirst` | inetutils-2.0/lib/argp-help.c:985-1010 | an entry keeps a key exactly when it declares it and no earlier entry does |
| `HelpShadowing.KeeperIsFirstDeclarer` | inetutils-2.0/lib/argp-help.c:985-1010 | an entry that keeps a key belongs to the first argp in preorder that declares it |
| `HelpShadowing.SomeEntryKeeps` | inetutils-2.0/lib/argp-help.c:985-1010 | every declared key is kept by some entry |
| `HelpShadowing.HelpKeepsAtFirstDeclarer` | inetutils-2.0/lib/argp-help.c:1026-1047 | for every tree and key the keeping entry exists and is the first declarer's |
| `HelpUsage.ShownIsOpen` | inetutils-2.0/lib/argp-help.c:558-581 | in the finished list the walk over an entry reports exactly its visible options that no earlier option shadows, each with the entry's first option |
| `HelpUsage.WalkEntry` | inetutils-2.0/lib/argp-help.c:1026-1047 | on the list built for a tree, the callback sees exactly the visible unshadowed options of the entry, read from the list's own buffer, all of them if it always answers 0 |
| `HelpUsage.HolSort` | inetutils-2.0/lib/argp-help.c:914-930 | after sorting, the entries are those of the list in some order, with their own offsets |
| `HelpUsage.AddArgless` | inetutils-2.0/lib/argp-help.c:1381-1394 | the keys of an entry's matches without an argument are appended |
| `HelpUsage.ArglessShorts` | inetutils-2.0/lib/argp-help.c:1460-1482 | the line of short options without arguments of a sorted list, written within its buffer |
| `HelpUsage.LineFits` | inetutils-2.0/lib/argp-help.c:1466-1474 | the line has no more keys than the list's string, in whatever order the entries were sorted |
| `HelpUsage.UsageTells` | inetutils-2.0/lib/argp-help.c:1464-1482 | no key stands twice in the line, and its keys are those of the entries' lines |
| `HelpUsage.TreeUsage` | inetutils-2.0/lib/argp-help.c:1703-1709 | from a tree to its usage line: building, sorting and walking the list names once each the visible options without arguments that no earlier option shadows, and no others |
| `HelpList.BuiltEntriesAreValid` | inetutils-2.0/lib/argp-help.c:1026-1047 | every entry built for a tree is an option with its aliases, in a cluster of the forest |
| `HelpList.ListGroups` | inetutils-2.0/lib/argp-help.c:456-490 | the groups of a tree's list, each argp starting again from group 0 |
| `HelpList.ChildPlaced` | inetutils-2.0/lib/argp-help.c:1036-1044 | the root's entries are in the given cluster; a child with a group or a header is in a new cluster below it with its group, index and depth, any other child where its parent is |
| `HelpList.ListIsOrdered` | inetutils-2.0/lib/argp-help.c:792-930 | on the list of any tree the comparator is antisymmetric and transitive, as the sort needs |
| `ParserTables.ConvertAdds` | inetutils-2.0/lib/argp-parse.c:298-388 | converting an argp and its children adds to the short string and the groups exactly what their preorder calls for |
| `ParserTables.ConvertNodeLinks` | inetutils-2.0/lib/argp-parse.c:353-374 | a new group has an in-range parent that is an earlier group, and child-input slots after all earlier ones |
| `ParserTables.ConvertLinks` | inetutils-2.0/lib/argp-parse.c:298-388 | the same for everything below an argp |
| `ParserTables.TablesFollowTree` | inetutils-2.0/lib/argp-parse.c:290-388 | for every tree: one group for each argp that is one, in preorder, with the point in the string where its options end; parents before children with an in-range index; disjoint child-input slices |
| `ParserTables.ChildGroupLinked` | inetutils-2.0/lib/argp-parse.c:374-385 | a child's group points to its parent's group and to its own place among the children |
| `ArgpConvert.ParserSizes.constructor` | inetutils-2.0/lib/argp-parse.c:472-475 | the counts before counting |
| `ArgpConvert.CalcSizes` | inetutils-2.0/lib/argp-parse.c:426-455 | the counts of a tree: three characters and one long option for each option, one group for each argp that is one, one slot for each child |
| `ArgpConvert.ConvertWithin` | inetutils-2.0/lib/argp-parse.c:298-388 | conversion of any part of the tree stays within the counts of that part |
| `ArgpConvert.CountsCoverTables` | inetutils-2.0/lib/argp-parse.c:298-388 | for every tree the counts cover the string with its NUL, the long options with their terminator, the groups and the child-input slots |
| `ArgpConvert.AlignToRoundsUp` | inetutils-2.0/lib/argp-parse.c:46 | the macro gives the least multiple not below the number |
| `ArgpConvert.RegionsDisjoint` | inetutils-2.0/lib/argp-parse.c:480-504 | the four regions of the storage follow one another without overlap and large enough; groups at offset 0, long options aligned, child inputs aligned when the size of a group is a multiple of their alignment |
| `ArgpConvert.Converter.FindLongOption` | inetutils-2.0/lib/argp-parse.c:173-189 | found exactly when the table has the name, and then the offset is that of an entry with it |
| `ArgpConvert.Converter.ConvertShort` | inetutils-2.0/lib/argp-parse.c:312-323 | the key and up to two colons are appended and the string stays terminated |
| `ArgpConvert.Converter.ConvertLong` | inetutils-2.0/lib/argp-parse.c:325-349 | a name not yet in the table is appended with its argument kind and encoded value; a known one is dropped |
| `ArgpConvert.Converter.ConvertOption` | inetutils-2.0/lib/argp-parse.c:305-350 | one option under the latest non-alias, documentation ones left out |
| `ArgpConvert.Converter.ConvertTable` | inetutils-2.0/lib/argp-parse.c:302-351 | all options of one table |
| `ArgpConvert.Converter.ConvertGroup` | inetutils-2.0/lib/argp-parse.c:298-377 | one argp and its group record |
| `ArgpConvert.Converter.ConvertOptions` | inetutils-2.0/lib/argp-parse.c:285-388 | an argp and all below it, within the arrays' bounds |
| `ArgpConvert.ParserConvert` | inetutils-2.0/lib/argp-parse.c:472-508 | allocation by the counts and conversion of a whole tree |
| `ArgpDispatch.ParserParseOpt` | inetutils-2.0/lib/argp-parse.c:717-751 | the search over the string and the group ends, or the decoding of a table value, gives the target group and key |
| `ArgpDispatch.KeyInFirstPart` | inetutils-2.0/lib/argp-parse.c:725-731 | the first occurrence of a key in the string lies in the part of the first argp that gives it to getopt |
| `ArgpDispatch.OffsetFindsGroup` | inetutils-2.0/lib/argp-parse.c:734-740 | an offset inside an argp's part finds that argp's group |
| `ArgpDispatch.ShortGoesToFirstParser` | inetutils-2.0/lib/argp-parse.c:717-751 | for every tree a short option goes to the first argp in preorder that gives it to getopt, and to no one if there is none |
| `ArgpDispatch.LowByteDecides` | inetutils-2.0/lib/argp-parse.c:722-740 | a value without a group number is looked up by its lowest byte and passed on whole |
| `ArgpDispatch.DashGoesToFirstGroup` | inetutils-2.0/lib/argp-parse.c:401-402 | with arguments in order the leading '-' takes every '-' to the first group |
| `ArgpDispatch.ShortsHaveNoNul` | inetutils-2.0/lib/argp-parse.c:312-323 | no NUL stands inside the string, so strchr searches all of it |
| `ArgpDispatch.HelpAndParserAgree` | inetutils-2.0/lib/argp-parse.c:302-355 | for every tree and key, help's first declarer is the parser's target exactly when that argp also gives the key to getopt |
| `ArgpDispatch.HelpEntryIsDispatched` | inetutils-2.0/lib/argp-parse.c:302-355 | where no alias of a documentation entry has a short key, the argp whose help entry keeps a key is the one it is dispatched to |
| `ArgpDispatch.DocAliasCounterexample` | inetutils-2.0/lib/argp-parse.c:309-314 | a tree whose root entry keeps a key in help while the parser sends the key to the child |
| `ArgpLong.ValueRoundTrip` | inetutils-2.0/lib/argp-parse.c:343-345 | a table value gives back group and signed key exactly when the key fits in 24 bits and the group number is below 127 |
| `ArgpLong.ValueLooksShort` | inetutils-2.0/lib/argp-parse.c:722-725 | a value is taken for a short option exactly when the group number plus one is a multiple of 256 |
| `ArgpLong.AddAllKeepsFirst` | inetutils-2.0/lib/argp-parse.c:325-349 | adding declarations one by one keeps of each name the first |
| `ArgpLong.ConvertAddsDecls` | inetutils-2.0/lib/argp-parse.c:298-388 | conversion adds the declarations of a tree in preorder |
| `ArgpLong.LongTableIsFirstDeclarations` | inetutils-2.0/lib/argp-parse.c:325-349 | for every tree the table holds each name once, from its first preorder declaration |
| `ArgpLong.LongGoesToFirstDeclarer` | inetutils-2.0/lib/argp-parse.c:742-751 | a long option found in the table takes no, a required or an optional argument as its first declarer says, and goes to that declarer's group under the key declared |
| `ArgpLong.DispatchLong` | inetutils-2.0/lib/argp-parse.c:742-751 | decoding a value gives group and key back exactly within the encoding's range |
| `ArgpShort.RealIsLatest` | inetutils-2.0/lib/argp-parse.c:305-308 | the option that an alias stands for is the latest before it that is no alias |
| `ArgpShort.StringIsWritten` | inetutils-2.0/lib/argp-parse.c:312-323 | for every tree the string is a '-' when arguments are taken in order, then each short option in preorder with no, one or two colons by the argument of the option it stands for |
| `ArgpShort.ColonsFollowKey` | inetutils-2.0/lib/argp-parse.c:312-323 | for every tree, behind the first occurrence of a key stand the colons of its first declaration, and no further one exactly when the next short option is not ':' itself |
| `ArgpShort.ColonKeyCounterexample` | inetutils-2.0/lib/argp-parse.c:312-323 | a table with an option ':' whose string says that the option before it takes an argument |
| `ParserTables.GroupIff` | inetutils-2.0/lib/argp-parse.c:298-300 | an argp has a group exactly when it has an option table or a parser |
| `ArgpRun.Parser.GroupParse` | inetutils-2.0/lib/argp-parse.c:224-240 | a group with a parser is called, one without answers EBADKEY |
| `ArgpRun.Parser.ParserInit` | inetutils-2.0/lib/argp-parse.c:522-557 | INIT to the groups in order until an error, which is returned; the state after it |
| `ArgpRun.Parser.OfferArg` | inetutils-2.0/lib/argp-parse.c:676-692 | an argument is offered to the groups while they decline, position and last key included |
| `ArgpRun.Parser.CreditGroup` | inetutils-2.0/lib/argp-parse.c:702-706 | the count of one group grows, no other changes |
| `ArgpRun.Parser.ParserParseArg` | inetutils-2.0/lib/argp-parse.c:666-713 | what an argument does to position, counts and getopt |
| `ArgpRun.Parser.ParserParseOpt` | inetutils-2.0/lib/argp-parse.c:717-751 | one call at most, to the target of the option |
| `ArgpRun.Parser.ParserParseNext` | inetutils-2.0/lib/argp-parse.c:777-866 | when getopt is asked, quoting, the end of the options, and whether EBADKEY means an argument nobody took |
| `ArgpRun.Parser.TakeNext` | inetutils-2.0/lib/argp-parse.c:838-865 | past getopt: the end, an argument or an option, and whether EBADKEY means an argument nobody took |
| `ArgpRun.OfferedInOrder` | inetutils-2.0/lib/argp-parse.c:676-692 | ARG then ARGS to each group in order up to the first that does not decline; no later group hears of the argument |
| `ArgpRun.OnlyTakerCredited` | inetutils-2.0/lib/argp-parse.c:694-710 | only the group that took the argument is credited, with as many arguments as the position moved on; otherwise getopt gets another try |
| `RunStep.AskedIff` | inetutils-2.0/lib/argp-parse.c:787-812 | getopt is asked at most once in a round, and exactly when it has not reported the end and the position is not behind a -- |
| `RunStep.GetoptError` | inetutils-2.0/lib/argp-parse.c:826-833 | a '?' with another optopt than -1: no parser is called, and EBADKEY is not about an argument |
| `RunStep.GetoptOption` | inetutils-2.0/lib/argp-parse.c:717-751 | any other option value, a genuine '?' included: exactly the call to its target is made, its answer is the result |
| `RunStep.ShortOptionIsCalled` | inetutils-2.0/lib/argp-parse.c:717-751 | for every tree a short option that getopt returns is passed to the first argp that declares it, and to no one if there is none |
| `RunStep.GetoptEnd` | inetutils-2.0/lib/argp-parse.c:813-825 | the end of the options: getopt is not asked again, a -- just passed is remembered, the next argument is offered if there is one |
| `RunStep.GetoptArgument` | inetutils-2.0/lib/argp-parse.c:854-857 | an argument that getopt returns in its place is offered |
| `RunStep.WithoutGetopt` | inetutils-2.0/lib/argp-parse.c:836-857 | without getopt: the end, or the next argument |
| `RunStep.RoundsFollow` | inetutils-2.0/lib/argp-parse.c:925-929 | rounds that succeed follow one another until one fails, whose error is the result |
| `RunStep.TakerDecides` | inetutils-2.0/lib/argp-parse.c:676-692 | error and position after an argument are those of the last answer; groups without a parser leave no trace |
| `RunStep.Consumed` | inetutils-2.0/lib/argp-parse.c:694-713 | ARGS consumes all arguments, ARG those the position has moved past; the taker is credited with them, or getopt is tried again |
| `RunStep.StartsIff` | inetutils-2.0/lib/argp-parse.c:522-557 | initialisation succeeds exactly when nobody answers INIT with an error other than EBADKEY; all have been called then, and an argument is added for a faked argv[0] |
| `ArgpRun.NoOptionsBehindQuote` | inetutils-2.0/lib/argp-parse.c:787-836 | behind a quoting -- getopt is not asked and no option passed on, unless the position is moved back before it |
| `ArgpRun.Parser.CallIdle` | inetutils-2.0/lib/argp-parse.c:586-590 | NO_ARGS to the groups without arguments, in order, up to the first answer that is neither 0 nor EBADKEY; that answer and the state it leaves |
| `ArgpRun.Parser.CallDown` | inetutils-2.0/lib/argp-parse.c:591-594 | calls from the last group back, up to the first answer that is neither 0 nor EBADKEY; that answer and the state it leaves |
| `ArgpRun.Parser.EndOfArguments` | inetutils-2.0/lib/argp-parse.c:580-617 | who hears of no arguments and of the end as the answers decide, the error that results, and the one for arguments left over |
| `ArgpRun.Parser.ParserFinalize` | inetutils-2.0/lib/argp-parse.c:570-659 | the closing calls of any run and its result as the parsers' answers decide them; the events have the shape of a run |
| `ArgpRun.Parser.ArgpParse` | inetutils-2.0/lib/argp-parse.c:921-932 | result and state of the whole call as a function of what parsers and getopt answer; every finished run has the shape of a run, one that succeeds is complete |
| `ArgpRun.FinalIsRun` | inetutils-2.0/lib/argp-parse.c:571-659 | the calls that finalisation makes, each round up to where the answers end it, complete the events to the shape of a run |
| `ArgpRun.IdleFatal` | inetutils-2.0/lib/argp-parse.c:586-594 | once NO_ARGS is answered with an error, nobody hears END |
| `ArgpRun.ResultOfRun` | inetutils-2.0/lib/argp-parse.c:571-659 | a failed run has an error, one without an error is complete |
| `RunOutcome.SucceedsIff` | inetutils-2.0/lib/argp-parse.c:571-659 | argp_parse returns 0 exactly when parsing ended well or at an argument nobody takes, everything was consumed or end_index given, and no answer to NO_ARGS, END or SUCCESS was an error other than EBADKEY |
| `RunOutcome.ErrorIs` | inetutils-2.0/lib/argp-parse.c:571-659 | the error returned: that of the parse, EINVAL for EBADKEY and for arguments left over, or the answer of a parser to NO_ARGS, END or SUCCESS |
| `RunOutcome.ToldIff` | inetutils-2.0/lib/argp-parse.c:620-645 | which groups are told of error or success, by how far the last round got |
| `RunOutcome.NeverToldIff` | inetutils-2.0/lib/argp-parse.c:620-645 | a group with a parser hears neither ERROR nor SUCCESS exactly when a later group answered SUCCESS with an error other than EBADKEY |
| `RunOutcome.FirstGroupNeverTold` | inetutils-2.0/lib/argp-parse.c:637-645 | a run of two groups in which the first one is told neither |
| `RunProtocol.EveryParserSeesProtocol` | inetutils-2.0/lib/argp-parse.c:571-659 | in every run past initialisation each parser's keys are INIT (opt, ARG or ARGS)* NO_ARGS? END? (ERROR or SUCCESS)? FINI |
| `RunProtocol.WhereCalled` | inetutils-2.0/lib/argp-parse.c:526-659 | in which part of a run a call with a given key stands |
| `RunProtocol.CallsFollowGroups` | inetutils-2.0/lib/argp-parse.c:636-651 | earlier groups hear INIT before later ones, and END, SUCCESS and FINI after them |
| `RunProtocol.NoArgsOnlyWhenIdle` | inetutils-2.0/lib/argp.h:176-180 | NO_ARGS goes only to groups credited no argument in the whole run |
| `RunProtocol.ParentsFirstInLastOut` | inetutils-2.0/lib/argp-parse.c:522-544 | in runs over the tables of any tree parents see INIT before their children, and END, SUCCESS and FINI after them |
| `NvtAscii.TransferRoundTrip` | inetutils-2.0/ftpd/ftpd.c:1531-1551 | decoding what was encoded removes exactly the NULs directly after a CR, so it is exact if and only if there is none |
| `NvtAscii.StreamIsStored` | inetutils-2.0/ftpd/ftpd.c:1531-1551 | of every stream exactly the CRs before an LF, unless CRs are kept, and the NULs after a CR are not stored |
| `NvtAscii.EncodedHasNoBareLf` | inetutils-2.0/ftpd/ftpd.c:1389-1399 | no LF of an encoded file is a bare one |
| `NvtAscii.SkipIsUnique` | inetutils-2.0/ftpd/ftpd.c:1019-1034 | at most one character position is reached by skipping a given number of encoded bytes |
| `NvtAscii.SkipNeedsLength` | inetutils-2.0/ftpd/ftpcmd.c:3875-3881 | skipping succeeds only up to the encoded length |
| `NvtAscii.WrittenAtIs` | inetutils-2.0/ftp/ftp.c:1101-1137 | writing at an offset overwrites from there and lengthens the file where it must |
| `NvtAscii.ResumeIsExact` | inetutils-2.0/ftp/ftp.c:1101-1137 | with a common prefix both sides skip to the same character, and writing the decoded remainder there completes the file |
| `FtpTransfer.SendMapped` | inetutils-2.0/ftpd/ftpd.c:1361-1377 | the mmap loop emits the encoded file and counts its characters |
| `FtpTransfer.SendBytes` | inetutils-2.0/ftpd/ftpd.c:1389-1399 | the stdio loop emits the same bytes |
| `FtpTransfer.SendRequest` | inetutils-2.0/ftp/ftp.c:826-848 | the client's sender emits the same bytes and counts them on the wire |
| `FtpTransfer.SizeCmd` | inetutils-2.0/ftpd/ftpcmd.c:3875-3884 | SIZE is the length of the encoded file |
| `FtpTransfer.ReceiveRun` | inetutils-2.0/ftpd/ftpd.c:1537-1548 | a run of CRs, with its gotos |
| `FtpTransfer.ReceiveData` | inetutils-2.0/ftpd/ftpd.c:1531-1551 | on every stream the server stores the decoded bytes and counts the LFs no CR directly precedes |
| `FtpTransfer.RecvRun` | inetutils-2.0/ftp/ftp.c:1142-1164 | the client's run of CRs and its counter |
| `FtpTransfer.RecvRequest` | inetutils-2.0/ftp/ftp.c:1138-1168 | on every stream the client stores the decoded bytes, its byte counter ends at the number of bytes on the wire, and the bare LFs are counted; with CR stripping off as well |
| `FtpTransfer.SkipServer` | inetutils-2.0/ftpd/ftpd.c:1012-1035 | the skip succeeds exactly when the offset is at most the encoded length, and stops at the first character whose encoding reaches it |
| `FtpTransfer.SkipClient` | inetutils-2.0/ftp/ftp.c:1102-1120 | the same in the local file |
| `FtpTransfer.Retrieve` | inetutils-2.0/ftpd/ftpd.c:1012-1057 | 554 exactly when the offset exceeds what SIZE returns; otherwise the encoded rest is sent |
| `FtpTransfer.Download` | inetutils-2.0/ftp/ftp.c:1138-1168 | server to client: what is stored, no bare LF, and a byte count equal to the answer of SIZE |
| `FtpTransfer.Upload` | inetutils-2.0/ftp/ftp.c:826-848 | client to server: the same |
| `FtpTransfer.Resume` | inetutils-2.0/ftp/ftp.c:1101-1168 | a resumed download completes the local file whenever the two files agree up to the restart point and no NUL follows a CR after it |
| `Decimals.DecimalScansBack` | inetutils-2.0/ftpd/ftpd.c:1696 | a printed number is scanned back, whatever non-digit follows |
| `FtpReply.Server.SendReply` | inetutils-2.0/ftpd/ftpd.c:1691-1700 | the bytes of a reply's last line |
| `FtpReply.Server.SendLine` | inetutils-2.0/ftpd/ftpd.c:1710-1720 | the bytes of a marked line |
| `FtpReply.Server.SendLines` | inetutils-2.0/ftpd/ftpd.c:1733-1763 | one marked line for each line of the text |
| `FtpReply.NextTextLine` | inetutils-2.0/ftpd/ftpd.c:1746-1760 | each round prints the line up to the next LF and leaves the text after it |
| `FtpReply.Client.ReadChar` | inetutils-2.0/ftp/ftp.c:529-565 | code, continuation, capture and first digit after one character, the buffer never overrun |
| `FtpReply.Client.AnswerTelnet` | inetutils-2.0/ftp/ftp.c:483-504 | telnet requests are refused on the control connection |
| `FtpReply.Client.ReadLine` | inetutils-2.0/ftp/ftp.c:479-566 | one line, up to its LF or the end of the stream |
| `FtpReply.Client.GetReply` | inetutils-2.0/ftp/ftp.c:470-584 | lines until one ends the reply: result, code, stream position, capture, answers and cpend; 421 or 221 at the end of the stream; the connection is given up on 421 |
| `FtpReply.Client.Command` | inetutils-2.0/ftp/ftp.c:423-466 | a command is sent and one reply read; without a connection nothing is sent or read and the code is -1 |
| `FtpReply.TelnetIsTransparent` | inetutils-2.0/ftp/ftp.c:481-506 | a telnet command within a line is refused and changes nothing else of what the line says |
| `FtpReply.ScanInnerLine` | inetutils-2.0/ftp/ftp.c:572-577 | no line before the last one ends the reply |
| `FtpReply.ScanLastLine` | inetutils-2.0/ftp/ftp.c:553-564 | the last line shows the code and its first digit |
| `FtpReply.OneReplyPerCall` | inetutils-2.0/ftp/ftp.c:470-584 | wherever a reply stands in the stream, one call consumes exactly it and returns its first digit and its code |
| `FtpReply.RepliesNeverLoseStep` | inetutils-2.0/ftp/ftp.c:470-584 | over any sequence of replies, as long as none before reply i is a 421, call i starts at reply i and ends after it, and gives up the connection exactly on a 421 |
| `FtpReply.ConversationInStep` | inetutils-2.0/ftp/ftp.c:470-584 | as many calls as there are replies hear exactly the codes up to the first 421 and leave the stream right behind that reply |
| `FtpPassive.Passive` | inetutils-2.0/ftpd/ftpd.c:1999-2057 | the reply printed for a mode, an address (mapped ones as IPv4) and a port |
| `FtpPassive.ReadAddress` | inetutils-2.0/ftp/ftp.c:1309-1418 | the address and port the client takes from its buffer, or failure |
| `FtpPassive.Initconn` | inetutils-2.0/ftp/ftp.c:1269-1418 | the commands sent, in order and up to the one accepted: EPSV, PASV, LPSV for IPv4 with doepsv4, PASV, LPSV without, EPSV, LPSV otherwise; the address in the reply, and whether EPSV is tried again |
| `FtpPassive.FallbackFindsAddress` | inetutils-2.0/ftp/ftp.c:1269-1418 | when the server refuses some commands and accepts the next, the client gets the address and port from that reply exactly when its body has fewer than 64 characters |
| `FtpPassive.PassiveReplyForms` | inetutils-2.0/ftpd/ftpd.c:1999-2057 | the replies to EPSV, PASV and LPSV literally, with the IPv4 address of a mapped one |
| `FtpPassive.AddressIff` | inetutils-2.0/ftp/ftp.c:1309-1418 | which texts give an address: all numbers must be there, and the long form must name the family and the lengths |
| `FtpPassive.FieldsScanBack` | inetutils-2.0/ftp/ftp.c:1319-1396 | comma-separated numbers are scanned back |
| `FtpPassive.FieldsAreShortest` | inetutils-2.0/ftp/ftp.c:1319-1396 | no shorter text scans to the same numbers |
| `FtpPassive.PrefixBelow` | inetutils-2.0/ftp/ftp.c:543-547 | cutting the text off never makes a number larger |
| `FtpPassive.CaptureBody` | inetutils-2.0/ftp/ftp.c:536-552 | the body in parentheses is caught from its first digit, up to 63 characters, and closed |
| `FtpPassive.PassiveReplyCaught` | inetutils-2.0/ftp/ftp.c:536-552 | every passive reply is read as one reply and its body caught |
| `FtpPassive.AddressScansBack` | inetutils-2.0/ftp/ftp.c:1309-1418 | the caught text gives the address and port back exactly when none of it was cut off |
| `FtpPassive.PassiveRoundTrip` | inetutils-2.0/ftpd/ftpd.c:1999-2057 | for every address and port, printing, catching and scanning give back the port (EPSV) or both, exactly when the body has fewer than 64 characters, which all EPSV and all IPv4 replies have |
| `FtpPassive.WideAddressCutOff` | inetutils-2.0/ftpd/ftpd.c:2031-2040 | IPv6 long replies that do not come back |
| `IfTemplate.Form.PrintInterfaceX` | inetutils-2.0/ifconfig/printif.c:1059-1169 | quiet or live, the scan stops at the same place and restores the depth; what it prints |
| `IfTemplate.Form.Substitute` | inetutils-2.0/ifconfig/printif.c:1097-1162 | a substitution: name, arguments, handler, and the text after it |
| `IfTemplate.Form.SkipArgs` | inetutils-2.0/ifconfig/printif.c:1119-1133 | quiet mode consumes all arguments |
| `IfTemplate.Form.TakeArgs` | inetutils-2.0/ifconfig/printif.c:1135-1152 | live mode consumes the same text and extracts the arguments |
| `IfTemplate.Form.Dollar` | inetutils-2.0/ifconfig/printif.c:1071-1097 | the escapes and the start of a substitution |
| `IfTemplate.EscapesPrint` | inetutils-2.0/ifconfig/printif.c:1071-1095 | live, $$ prints a dollar sign, $} a closing brace, and '$' with any other character but an opening brace itself; quiet, nothing |
| `IfTemplate.LiteralPrints` | inetutils-2.0/ifconfig/printif.c:1063-1069 | any other character prints itself live and nothing when quiet |
| `IfTemplate.Form.FormatHandler` | inetutils-2.0/ifconfig/printif.c:359-378 | a handler is called with its arguments and expands those it selects, in order |
| `IfTemplate.Form.SelectArg` | inetutils-2.0/ifconfig/printif.c:264-272 | an argument is printed live, a missing one ignored |
| `IfTemplate.StrChr` | inetutils-2.0/ifconfig/printif.c:1099-1100 | the first closing brace |
| `IfTemplate.ScanCut` | inetutils-2.0/ifconfig/printif.c:1059-1169 | what follows the place where a nested scan stops plays no part in it, for every text |
| `IfTemplate.RescanConsumesAll` | inetutils-2.0/ifconfig/printif.c:1143-1147 | scanning an extracted argument again consumes all of it, for every text |
| `IfTemplate.TemplateScanned` | inetutils-2.0/ifconfig/printif.c:1059-1169 | every well-formed template stops at its matching brace, prints nothing when quiet, and live prints what it means, with names and argument texts recovered |
| `IfTemplate.TemplateRoundTrip` | inetutils-2.0/ifconfig/printif.c:1171-1193 | the same for a whole template |
| `IfTemplate.TemplateExample` | inetutils-2.0/ifconfig/printif.c:1059-1169 | a well-formed template with a piece of each kind |
| `IfTemplate.UnclosedIsPrinted` | inetutils-2.0/ifconfig/printif.c:1099-1108 | without a closing brace even a quiet scan prints the rest |
| `QuietScan.AfterLastCloseIs` | inetutils-2.0/ifconfig/printif.c:1099-1108 | the text behind the last closing brace has none and goes to the end |
| `QuietScan.ScanStops` | inetutils-2.0/ifconfig/printif.c:1065-1067 | a scan stops at the end of the text or, in an argument, before a closing brace |
| `QuietScan.QuietIffClosed` | inetutils-2.0/ifconfig/printif.c:1059-1169 | for every text: a quiet scan prints nothing exactly when the text behind the last closing brace opens no substitution, and stays inside the text exactly when no '$' stands alone at the end of it |
| `QuietScan.QuietArgument` | inetutils-2.0/ifconfig/printif.c:1059-1169 | for every text scanned as an argument: something is printed exactly when it is not closed and the text behind the last closing brace opens a substitution |
| `PingChecksum.FtChecksum` | legacy/ft_checksum.c:6-33 | the complement of the folded 32-bit sum for a buffer of any length and either byte order; without overflow up to 131074 bytes |
| `PingChecksum.RfcExample` | legacy/ft_checksum.c:6-33 | the example of section 3 of RFC 1071 |
| `PingChecksum.FoldCarries` | legacy/ft_checksum.c:30-31 | the loop ends and folds all carries |
| `PingChecksum.FoldIsResidue` | legacy/ft_checksum.c:30-32 | folding is reduction modulo 65535, with 65535 for nonzero multiples |
| `PingChecksum.NoOverflow` | legacy/ft_checksum.c:14-29 | words of a buffer up to 131074 bytes, so of any packet, do not overflow 32 bits |
| `PingChecksum.VerifiesIff` | legacy/ft_checksum.c:3-4 | a packet verifies exactly when its words add up to a nonzero multiple of 65535 |
| `PingChecksum.StoredChecksumVerifies` | legacy/main.c:135-136 | storing the checksum into its zeroed aligned field makes the whole packet checksum to 0 |
| `PingChecksum.ByteOrderIndependent` | legacy/ft_checksum.c:20-29 | RFC 1071, section 2 (B): the bytes stored do not depend on the host's byte order |
| `PingChecksum.OneWordErrors` | legacy/ft_checksum.c:3-4 | which changes of one word go unnoticed: only between 0 and 65535 |
| `PingChecksum.FillChecksum` | legacy/main.c:135-136 | the field at offset 2 is filled in, nothing else changes, the packet verifies |
| `PingStats.Count` | legacy/ft_rec_resp.c:164-170 | the running totals stay those of the list of round-trip times |
| `PingStats.VarianceIsSpread` | legacy/main.c:166-169 | the streaming variance is the mean squared distance from the mean, never negative, zero only for equal times |
| `PingStats.MeanBetween` | legacy/main.c:166-171 | the mean lies between minimum and maximum |
| `PingRing.Session.FillPayload` | legacy/main.c:79-108 | the ring slot of the number and the payload, by pattern, a copy of the time put in the ring, and counting bytes; the header is left alone |
| `PingRing.Session.SendOne` | legacy/main.c:122-147 | a complete echo request that checksums to 0, its time in the log and the ring, the counters |
| `PingRing.RingAdvances` | legacy/main.c:84 | each slot keeps the time of the latest probe with its number |
| `PingRing.SlotOfProbe` | legacy/ft_rec_resp.c:161-163 | the slot of probe i holds the time of the latest probe with its number, which is probe i exactly until probe i + 65536 is built |
| `PingRing.RepliedIff` | legacy/ft_rec_resp.c:145-161 | packets are matched exactly when they are echo replies to us under an IP header of 5 to 15 words |
| `PingRing.EchoOfProbe` | legacy/ft_rec_resp.c:145-163 | the echo of probe i is matched with i modulo 65536 and timed from probe i while probe i + 65536 has not been built |
| `PingRing.ErrorNamesProbe` | legacy/ft_rec_resp.c:65-93 | an ICMP error quoting a probe is reported with its number unless quiet or, when not verbose, not ours |
| `PingRing.ReportedIff` | legacy/ft_rec_resp.c:65-93 | exactly which packets are reported: errors of type 3, 4, 5, 11 or 12 that quote two full headers, with our identifier unless verbose, not under -q or -Q; with the quoted number |
| `PingRing.ReportedIsNoReply` | legacy/ft_rec_resp.c:53-56 | what is reported as an error is not counted as a reply |
| `PingRing.OthersDoNotCount` | legacy/ft_rec_resp.c:154-160 | packets that are not echo replies to us leave the round-trip times alone |
| `PingRing.Session.HandleIcmpError` | legacy/ft_rec_resp.c:65-93 | the gates and filters of the error report |
| `PingRing.Session.TakePacket` | legacy/ft_rec_resp.c:145-170 | one packet: gates, filter, lookup and statistics |
| `PingRing.Session.FtRecResp` | legacy/ft_rec_resp.c:122-183 | a drained queue adds exactly its replies' times and its errors' reports; sends, ring and log are untouched |
| `PingRing.Session.PrintStats` | legacy/main.c:152-172 | loss, minimum, mean, maximum and variance of all round trips; the clamp never fires |
| `PingPacing.MsUntil` | legacy/main.c:57-67 | the wait is never negative, at most an hour, never ends before the target unless cut, and is less than a millisecond too long |
| `PingPacing.Pinger.Preload` | legacy/main.c:297-309 | at most preload + 1 packets, exactly that many unless something stops it |
| `PingPacing.Pinger.Turn` | legacy/main.c:313-350 | one turn of the loop: when it ends, what poll is given, what is heard, when a send is decided |
| `PingPacing.Pinger.EndTurn` | legacy/main.c:336-349 | sending is decided by the clock and the deadline alone |
| `PingPacing.Pinger.EventLoop` | legacy/main.c:313-350 | the loop over whatever comes |
| `PingPacing.Ping` | legacy/main.c:297-350 | the whole program: the number of packets and the deadline |
| `PingPacing.OverIff` | legacy/main.c:313-350 | a run is over exactly when some round had an interrupt, a clock reading from the deadline on, a failed poll or receive, a reply under -o, or a due packet that sendto refused; until then every due packet went out and every reply was heard |
| `PingPacing.StepEnds` | legacy/main.c:313-350 | one round: when it ends the loop, and otherwise what is sent, heard and decided |
| `PingPacing.InterruptedGoesOn` | legacy/main.c:322-328 | an interrupted poll leaves everything as it was |
| `PingPacing.PollWaits` | legacy/main.c:318-321 | poll is told to wait for the next send or the deadline, whichever is first, and for neither a millisecond longer |
| `PingPacing.EveryTimeoutSends` | legacy/main.c:313-349 | rounds in which poll times out undisturbed send one packet each |
| `PingPacing.SendsAreApart` | legacy/main.c:318-348 | after k paced sends at least k intervals have passed |
| `PingPacing.PacedSends` | legacy/main.c:297-350 | in every run with a clock that does not go back, packets since the first paced one are at most one for each interval that has passed |
| `PingPacing.DecidedBeforeDeadline` | legacy/main.c:341-346 | no send is decided at or after the deadline |
| `PingPacing.StopsAtFirstReply` | legacy/main.c:329-335 | with -o a run that goes on has heard no reply |
| `PingPacing.UnclampedActs` | legacy/main.c:318-349 | a timeout that was not cut leads to a send, unless an interrupt, the deadline or sendto ends the loop |
| `PingPacing.RoundsAreSpent` | legacy/main.c:313-350 | every round of a run that is not over is a wake-up, a send or an hour's wait |
| `PingPacing.RunTerminates` | legacy/main.c:313-350 | a run with a finite deadline ends within its wake-ups plus one round for each interval and each hour up to the deadline |
| `FtpTokens.Slicer.ReadWord` | inetutils-2.0/ftp/main.c:566-614 | the states from S1 on copy exactly the word's text |
| `FtpTokens.Slicer.SlurpString` | inetutils-2.0/ftp/main.c:510-638 | one argument, where it is stored, what is left of the line, and altarg |
| `FtpTokens.Slicer.MakeArgv` | inetutils-2.0/ftp/main.c:477-503 | the arguments of any line, at most 20, in a buffer of which at most one byte more than the line's length is written and none behind; altarg before the second argument |
| `FtpTokens.WordScans` | inetutils-2.0/ftp/main.c:566-614 | however a word is written with bare, escaped and quoted characters, its text is read back |
| `FtpTokens.LineIsCut` | inetutils-2.0/ftp/main.c:477-503 | every well-written line is cut into its words' texts, the first twenty of them |
| `FtpTokens.SpecialIsCut` | inetutils-2.0/ftp/main.c:518-526 | a leading '!' or '$' is an argument of its own |
| `FtpTokens.EscapedTokensComeBack` | inetutils-2.0/ftp/main.c:477-503 | 1 to 20 non-empty tokens, each character escaped and joined with blanks, come back exactly |

## Left out

- ArgpRun.Parser.ArgpParse: the loop over the arguments is cut off after any given number of rounds, because parsers may set the position back for ever.
- ArgpRun.Parser.GroupParse: does not model the hand-over of input, child_inputs, hook and arg_num, which the calls carry but nothing here reads.
- ArgpRun.Parser.ParserInit: does not model the passing of input values from parents to children, for the same reason.
- FtpReply.Client.GetReply: of lostpeer only the loss of the connection is modelled, with one connection in use; the data socket, signals, printing and the buffer reply_string are left out.
- FtpPassive.Initconn: sockets, debugging options and messages are left out, as are the parts for active mode.
- PingRing.Session.SendOne: the dot printed when flooding is left out.
- PingRing.Session.FillPayload: how a struct timespec is laid out in its 16 bytes is a parameter.
- PingRing.Session.PrintStats: gives the variance; its square root and the printed line are left out.
- PingPacing.Pinger.Turn: time and waiting are real numbers of milliseconds given by the environment; rounding of floating-point values is not modelled.
- IfTemplate.Form.FormatHandler: a handler is known by the list of arguments it expands, a function of its name and arguments; what else handlers print, and handlers whose choice changes while a template is printed, are left out, as is the error for an unknown name.
- IfTemplate.Form.PrintInterfaceX: excludes exactly the texts (whole templates) that end, behind their last closing brace, with a '$' standing alone (`QuietIffClosed`), where the source reads past the end of the string and what follows is undefined; the space reserved for argument pointers is not modelled.
- FtpPassive.ReadAddress: scanf's signs, leading blanks and overflow beyond 32 bits are left out, as none of the replies has them.
- HolEntries.ShortIterate: the domain and the cookie of the callback are left out; what a callback keeps in its cookie is shown for the usage line.
- HelpUsage.HolSort: does not model qsort, which is known by the order it leaves; any order is allowed.
- HelpUsage.TreeUsage: the group changes of hol_set_group, which touch no option, and the rest of the usage line are left out.
- ArgpOrder.HolEntryCmp: integers do not overflow in the subtraction of groups and indices, and names are compared in the C locale.
- argp: ARGP_NO_ARGS in sizing, help layout and exit, translation domains, input, hook and child_inputs values, and wrap-around of args_processed.
- argp: getopt, which is an arbitrary function of the calls so far; a decoded group number outside the table calls no one.
- argp: ARGP_NO_HELP and the default and version argps that argp_parse adds to the tree, which are trees like any other.
- argp-fmtstream, the yacc tables of ftpcmd.c and domap in cmds.c.
- ftp and ftpd: sockets, ferror and disk errors, hash marks, binary transfers, byte_count of the data loops beyond send_data, and STOR with REST in ASCII mode, where the two sides count differently.
- ft_ping: command-line parsing, socket options, name resolution, output lines of replies.
- ft_ping is modelled from legacy/; the sources under src/ are not part of this model.
