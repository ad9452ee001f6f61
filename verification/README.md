# pf-db identifier generation, modelled in Dafny

This project models the block-allocating identifier generator of pf-db and the
multi-category layer built on top of it:

- `ObjectIdentifierDB` hands out identifiers from an in-memory block
  `[nextAvailableId, lastPrefetchedId]`. When the block is used up it refills:
  it reads `(NEXTID, BLOCKSIZE)` from the category's row of the `OIDADMIN` table,
  writes `NEXTID + blockSize` back and takes the ids in between as its new block.
  The table and the row are created lazily, guarded by the `tableInitialized` flag.
- `ObjectIdentifierGenerator` is a purely in-memory counter. Its identifiers are
  formatted as prefix + decimal value, left-padded to a length with a padding character.
- `DefaultMultiCategoryIdentifierGenerator` maps trimmed category names to producers.
  It delegates `newIdentifier` / `nextIdentifier` to them and wraps foreign failures.
- `DBMultiCategoryIdGeneratorBuilder` collects category specs, de-duplicates their
  names case-insensitively and registers one database-backed producer per spec.
- `DefaultIdGeneratorCategorySpec` and `IdGeneratorTableSpec` are the configuration
  records those two consume.

The database is a value `Database(tableExists, rows)`. Each operation takes the
allocator state and the database and returns both, updated. Every database round
trip takes a `Fault` argument that names the SQL statement throwing an
`SQLException`, or `NoFault`. A refill and a bootstrap are each one atomic step.
Several allocators of one category and one qualifier share one row of one table.
`BlockReservation` lets their calls interleave in any order. It proves that the
corrected refill (see Findings) never hands out an id twice, under any faults, and
that the code as written never does so when no fault occurs.

Files (one module each): `wrappers.dfy` (Option, Result, failure kinds),
`java_text.dfy` (`trim`, blankness, `equalsIgnoreCase`), `id_format.dfy`,
`id_generator.dfy`, `identifier_db.dfy`, `block_reservation.dfy`, `table_spec.dfy`,
`category_spec.dfy`, `registry.dfy`, `builder.dfy`.

## Model

Source paths are relative to the repository root.

| member | source | states |
|---|---|---|
| JavaText.Trim | src/main/java/org/pfsw/db/util/DefaultMultiCategoryIdentifierGenerator.java:116-119 | the trimmed name is no longer than the original and starts and ends with a visible character; it is empty exactly when every character of the original is trimmable |
| JavaText.TrimCutsEnds | src/main/java/org/pfsw/db/util/DefaultMultiCategoryIdentifierGenerator.java:116-119 | the trimmed name is a contiguous part of the original, and everything removed in front of and behind it is trimmable |
| JavaText.TrimIdempotent | src/main/java/org/pfsw/db/util/DefaultMultiCategoryIdentifierGenerator.java:116-119 | trimming a trimmed name changes nothing, so registry keys are fixed points of normalisation |
| JavaText.AlphaEqualsIgnoreCase | src/main/java/org/pfsw/db/util/DBMultiCategoryIdGeneratorBuilder.java:184-194 | "Alpha" and "alpha" are equal to `equalsIgnoreCase` yet distinct strings |
| IdFormat.FormatId | code/PF-DB/src/test/java/org/pfsw/db/util/ObjectIdentifierGeneratorTest.java:62-67 | the identifier is the prefix, then padding characters, then the whole decimal string; its length is prefix + max(digits, length); a length of 0 or less adds no padding |
| IdFormat.LeftPad | code/PF-DB/src/test/java/org/pfsw/db/util/ObjectIdentifierGeneratorTest.java:104-109 | padding never truncates: the value is kept whole at the end, with only pad characters in front |
| IdFormat.DecimalString | code/PF-DB/src/test/java/org/pfsw/db/util/ObjectIdentifierDBTest.java:110-118 | `Long.toString`: digits of the value, with a minus sign in front for negatives |
| IdFormat.DecimalStringInjective | src/main/java/org/pfsw/db/util/DefaultIdGeneratorCategorySpec.java:114 | distinct values print as distinct decimal strings |
| IdFormat.DigitsRoundTrip | code/PF-DB/src/test/java/org/pfsw/db/util/ObjectIdentifierDBTest.java:110-118 | reading the decimal digits back gives the value |
| IdFormat.FormatRoundTrip | code/PF-DB/src/test/java/org/pfsw/db/util/ObjectIdentifierGeneratorTest.java:62-67 | with '0' or a non-digit as padding, a formatted non-negative id parses back to its value |
| IdFormat.FormatInjective | code/PF-DB/src/test/java/org/pfsw/db/util/ObjectIdentifierGeneratorTest.java:90-95 | distinct values give distinct identifiers under one format |
| IdFormat.PadsToLength | code/PF-DB/src/test/java/org/pfsw/db/util/ObjectIdentifierGeneratorTest.java:62-67 | value 1 with length 3 is "001" |
| IdFormat.PrefixThenPadding | code/PF-DB/src/test/java/org/pfsw/db/util/ObjectIdentifierDBTest.java:33-34 | prefix "A:" with value 500 and length 10 is "A:0000000500" |
| IdFormat.WideValueNotTruncated | code/PF-DB/src/test/java/org/pfsw/db/util/ObjectIdentifierGeneratorTest.java:104-109 | 200 with length 2 is "200" |
| IdFormat.NoPaddingForNegativeLength | code/PF-DB/src/test/java/org/pfsw/db/util/ObjectIdentifierDBTest.java:110-118 | 98 with length -1 is "98" |
| IdGenerator.NewGenerator | src/main/java/org/pfsw/db/util/ObjectIdentifierGenerator.java:30-37 | the default generator starts at 1 with length 10, '0' padding and no prefix |
| IdGenerator.WithLength | src/main/java/org/pfsw/db/util/ObjectIdentifierGenerator.java:44-48 | the defaults with only the length changed |
| IdGenerator.SetStartId | src/main/java/org/pfsw/db/util/ObjectIdentifierGenerator.java:63-69 | a negative start is ignored; any other start becomes the next id; the format is untouched |
| IdGenerator.WithStartAndLength | src/main/java/org/pfsw/db/util/ObjectIdentifierGenerator.java:57-61 | the next id is the start when it is non-negative, else 1; the format has the given length |
| IdGenerator.NextIdentifier | src/main/java/org/pfsw/db/util/ObjectIdentifierGenerator.java:28 | returns the counter and leaves it one higher, format unchanged |
| IdGenerator.NewIdentifier | src/main/java/org/pfsw/db/util/ObjectIdentifierGenerator.java:28 | the formatted counter, with the same state change as `nextIdentifier` |
| IdGenerator.GenerateConsecutive | code/PF-DB/src/test/java/org/pfsw/db/util/ObjectIdentifierGeneratorTest.java:76-81 | k calls yield counter, counter+1, ..., counter+k-1 and leave the counter k higher |
| IdGenerator.DefaultGeneratorCountsFromOne | code/PF-DB/src/test/java/org/pfsw/db/util/ObjectIdentifierGeneratorTest.java:76-81 | a default generator yields 1, 2, 3, ... |
| IdGenerator.StartIdFirst | src/main/java/org/pfsw/db/util/ObjectIdentifierGenerator.java:57-61 | (startId, idLength) yields startId first, then increments by one |
| IdGenerator.StartAt500Length4 | code/PF-DB/src/test/java/org/pfsw/db/util/ObjectIdentifierGeneratorTest.java:90-95 | (500, 4) yields "0500" and then "0501" |
| IdentifierDB.NewAllocator | code/PF-DB/src/main/java/org/pfsw/db/util/ObjectIdentifierDB.java:56-123 | a null or empty category keeps "$DEFAULT"; no block size is set, the flag is false, and the empty block forces a refill on first use |
| IdentifierDB.GetBlockSize | code/PF-DB/src/main/java/org/pfsw/db/util/ObjectIdentifierDB.java:131-138 | 1 until a block size is set, then the set value; never below 1 |
| IdentifierDB.SetBlockSize | code/PF-DB/src/main/java/org/pfsw/db/util/ObjectIdentifierDB.java:143-149 | values of 0 or less are ignored; nothing but the block size changes |
| IdentifierDB.EffectiveBlockSize | code/PF-DB/src/main/java/org/pfsw/db/util/ObjectIdentifierDB.java:266-278 | the configured size if set, else the row's BLOCKSIZE, forced to 1 when not positive; always at least 1 |
| IdentifierDB.TableName | code/PF-DB/src/main/java/org/pfsw/db/util/ObjectIdentifierDB.java:493-500 | "OIDADMIN" without a qualifier, else the qualifier, a dot, then "OIDADMIN" |
| IdentifierDB.TableNameInjective | code/PF-DB/src/main/java/org/pfsw/db/util/ObjectIdentifierDB.java:493-500 | different qualifiers give different table names |
| IdentifierDB.NewRow | code/PF-DB/src/main/java/org/pfsw/db/util/ObjectIdentifierDB.java:433-440 | the inserted row holds the start id and `getBlockSize()` |
| IdentifierDB.TableInitialized | code/PF-DB/src/main/java/org/pfsw/db/util/ObjectIdentifierDB.java:198-245 | a set flag answers true with no database access; a missing table is created with the category row; a missing row is inserted; only the flag changes in memory; an SQL error leaves it false with no row added; existing rows are never altered |
| IdentifierDB.IdFromDb | code/PF-DB/src/main/java/org/pfsw/db/util/ObjectIdentifierDB.java:247-295 | on success: returns the row's NEXTID n, writes n + bs and sets lastPrefetchedId to n + bs - 1; without a row, table or connection it returns 0 and changes nothing; a failed UPDATE still returns n |
| IdentifierDB.LoadNextIdFromDb | code/PF-DB/src/main/java/org/pfsw/db/util/ObjectIdentifierDB.java:165-174 | the configuration never changes; a failed bootstrap leaves the in-memory block and the rows as they were |
| IdentifierDB.RefillReservesBlock | code/PF-DB/src/main/java/org/pfsw/db/util/ObjectIdentifierDB.java:165-174 | a successful refill reading n sets nextAvailableId to n and lastPrefetchedId to n + bs - 1, writes n + bs, and leaves a non-empty block |
| IdentifierDB.RefillWithoutRow | code/PF-DB/src/main/java/org/pfsw/db/util/ObjectIdentifierDB.java:262-294 | a refill finding no row writes nothing, keeps lastPrefetchedId and makes 0 the next id |
| IdentifierDB.GetNextId | code/PF-DB/src/main/java/org/pfsw/db/util/ObjectIdentifierDB.java:155-163 | with ids left in the block it returns nextAvailableId and changes nothing, in memory or in the database; it always returns the new nextAvailableId |
| IdentifierDB.SetNextId | code/PF-DB/src/main/java/org/pfsw/db/util/ObjectIdentifierDB.java:176-187 | an id within the block is stored; a larger id triggers a refill instead |
| IdentifierDB.NextIdentifier | code/PF-DB/src/main/java/org/pfsw/db/util/ObjectIdentifierDB.java:155-187 | with ids left it returns nextAvailableId; with two or more left it only moves the counter on by one |
| IdentifierDB.NewIdentifier | code/PF-DB/src/main/java/org/pfsw/db/util/ObjectIdentifierDB.java:155-187 | the formatted `nextIdentifier`, with the same effect on allocator and database |
| IdentifierDB.TableInitializedIdempotent | code/PF-DB/src/main/java/org/pfsw/db/util/ObjectIdentifierDB.java:205-208 | after a successful bootstrap, asking again changes nothing, whatever fault is offered |
| IdentifierDB.BootstrapCreatesTableOnce | code/PF-DB/src/main/java/org/pfsw/db/util/ObjectIdentifierDB.java:423-440 | on an empty database the first bootstrap creates the table with exactly its row; a second category only adds its own row |
| IdentifierDB.LoadKeepsConsistent | code/PF-DB/src/main/java/org/pfsw/db/util/ObjectIdentifierDB.java:165-174 | a set flag keeps meaning that the table and the row exist |
| IdentifierDB.NextIdentifierKeepsConsistent | code/PF-DB/src/main/java/org/pfsw/db/util/ObjectIdentifierDB.java:155-187 | the same for a whole `nextIdentifier` call, under any faults |
| IdentifierDB.ExclusiveStep | code/PF-DB/src/main/java/org/pfsw/db/util/ObjectIdentifierDB.java:155-187 | the only user of a row gets nextAvailableId and moves it on by exactly one, refilling as needed |
| IdentifierDB.FreshFirstCall | code/PF-DB/src/main/java/org/pfsw/db/util/ObjectIdentifierDB.java:165-245 | a fresh allocator's first id is the row's NEXTID, or the start id of the row it creates |
| IdentifierDB.DrawConsecutive | code/PF-DB/src/test/java/org/pfsw/db/util/ObjectIdentifierDBTest.java:44-48 | the only user of a row hands out consecutive ids across any number of refills |
| IdentifierDB.FreshDrawFromStart | code/PF-DB/src/test/java/org/pfsw/db/util/ObjectIdentifierDBTest.java:110-118 | a fresh allocator with no row yet yields startId, startId + 1, ... |
| IdentifierDB.IdFromDbChecked | code/PF-DB/src/main/java/org/pfsw/db/util/ObjectIdentifierDB.java:247-295 | corrected refill: it agrees with the original on success; otherwise it changes nothing and reports a database-access failure |
| IdentifierDB.LoadChecked | code/PF-DB/src/main/java/org/pfsw/db/util/ObjectIdentifierDB.java:165-174 | corrected: a failure keeps the in-memory block; success leaves a non-empty block and the flag set |
| IdentifierDB.GetNextIdChecked | code/PF-DB/src/main/java/org/pfsw/db/util/ObjectIdentifierDB.java:155-163 | corrected: no database access while ids are left; an id it returns lies in the block |
| IdentifierDB.SetNextIdChecked | code/PF-DB/src/main/java/org/pfsw/db/util/ObjectIdentifierDB.java:176-187 | corrected: stores an id within the block, else refills |
| IdentifierDB.NextIdentifierChecked | code/PF-DB/src/main/java/org/pfsw/db/util/ObjectIdentifierDB.java:155-187 | corrected: success leaves a non-empty block; every failure is a database-access failure |
| IdentifierDB.LoadAgreesWithoutFault | code/PF-DB/src/main/java/org/pfsw/db/util/ObjectIdentifierDB.java:165-174 | without faults the refill as written and the corrected refill agree |
| IdentifierDB.NextIdentifierAgreesWithoutFault | code/PF-DB/src/main/java/org/pfsw/db/util/ObjectIdentifierDB.java:155-187 | without faults `nextIdentifier` as written and the corrected one agree |
| IdentifierDB.FailedUpdateRepeatsId | code/PF-DB/src/main/java/org/pfsw/db/util/ObjectIdentifierDB.java:280-288 | as written, a failed UPDATE makes id 1000 come out twice |
| IdentifierDB.FailedUpdateReported | code/PF-DB/src/main/java/org/pfsw/db/util/ObjectIdentifierDB.java:280-288 | corrected, the same schedule gives an error, then 1000, then 1001 |
| BlockReservation.RefillsAscending | code/PF-DB/src/main/java/org/pfsw/db/util/ObjectIdentifierDB.java:280-282 | any interleaving of refills on one row, by any instances of that category and one qualifier, reserves non-empty, strictly ascending, pairwise disjoint blocks between the row's old and new NEXTID |
| BlockReservation.ThreeInstancesReserveSeparateBlocks | code/PF-DB/src/test/java/org/pfsw/db/util/ObjectIdentifierDBTest.java:81-107 | three "Beta" instances with block size 5 reserve 1000-1004, 1005-1009 and 1010-1014 |
| BlockReservation.LoadCheckedEffect | code/PF-DB/src/main/java/org/pfsw/db/util/ObjectIdentifierDB.java:165-174 | a refill keeps the local invariant, never lowers the row, and a successful one reserves ids not below the old NEXTID |
| BlockReservation.GetNextIdCheckedEffect | code/PF-DB/src/main/java/org/pfsw/db/util/ObjectIdentifierDB.java:155-163 | the id returned is the old block's next id or freshly reserved |
| BlockReservation.NextCheckedEffect | code/PF-DB/src/main/java/org/pfsw/db/util/ObjectIdentifierDB.java:155-187 | the id returned was in the old block or freshly reserved, and it lies below the new block; category and qualifier stay |
| BlockReservation.StepKeepsInv | code/PF-DB/src/main/java/org/pfsw/db/util/ObjectIdentifierDB.java:155-187 | one call keeps the instances on one category and qualifier, their blocks apart and away from issued ids; an id it returns is new |
| BlockReservation.RunIssuesDistinct | code/PF-DB/src/main/java/org/pfsw/db/util/ObjectIdentifierDB.java:155-187 | corrected: any interleaving of calls on any number of instances of one category and qualifier, under any faults, hands out pairwise distinct ids never handed out before |
| BlockReservation.FreshClusterInv | code/PF-DB/src/main/java/org/pfsw/db/util/ObjectIdentifierDB.java:56-123 | freshly constructed instances of one category and one qualifier satisfy the invariant on any database |
| BlockReservation.AsWrittenMatchesChecked | code/PF-DB/src/main/java/org/pfsw/db/util/ObjectIdentifierDB.java:155-187 | without faults, a run of the code as written equals the corrected run |
| BlockReservation.AsWrittenFaultFreeDistinct | code/PF-DB/src/test/java/org/pfsw/db/util/ObjectIdentifierDBTest.java:81-107 | without faults the code as written never hands out an id twice, for any number of instances of one category and qualifier and any interleaving |
| TableSpecs.Create | src/main/java/org/pfsw/db/util/IdGeneratorTableSpec.java:21-35 | no qualifier; table OIDADMIN with columns CATEGORY, NEXTID and BLOCKSIZE |
| TableSpecs.CreateNamed | src/main/java/org/pfsw/db/util/IdGeneratorTableSpec.java:37-40 | differs from `create()` only in the table name |
| TableSpecs.SetTableQualifier | src/main/java/org/pfsw/db/util/IdGeneratorTableSpec.java:52-56 | sets the qualifier and changes no other field |
| TableSpecs.SetUnqualifiedTableName | src/main/java/org/pfsw/db/util/IdGeneratorTableSpec.java:63-67 | sets the table name and changes no other field |
| TableSpecs.SetCategoryColumnName | src/main/java/org/pfsw/db/util/IdGeneratorTableSpec.java:74-78 | sets the category column and changes no other field |
| TableSpecs.SetNextIdColumnName | src/main/java/org/pfsw/db/util/IdGeneratorTableSpec.java:85-89 | sets the next-id column and changes no other field |
| TableSpecs.SetBlockSizeColumnName | src/main/java/org/pfsw/db/util/IdGeneratorTableSpec.java:96-100 | sets the block-size column and changes no other field |
| TableSpecs.ToString | src/main/java/org/pfsw/db/util/IdGeneratorTableSpec.java:102-106 | `IdGeneratorTableSpec('` + table name + `')` |
| TableSpecs.ToStringIdentifiesTableName | src/main/java/org/pfsw/db/util/IdGeneratorTableSpec.java:102-106 | two specs print alike if and only if their table names agree |
| TableSpecs.ColumnSettersCommute | src/main/java/org/pfsw/db/util/IdGeneratorTableSpec.java:74-100 | the column setters touch disjoint fields, so their order does not matter |
| TableSpecs.CustomTableSpec | src/main/java/org/pfsw/db/util/IdGeneratorTableSpec.java:37-106 | a custom table and its columns, with the text `IdGeneratorTableSpec('ID_SEQUENCER')` |
| CategorySpecs.Create | src/main/java/org/pfsw/db/util/DefaultIdGeneratorCategorySpec.java:12-43 | the given name with start 1, block size 10, length 0, padding '0' and no prefix |
| CategorySpecs.SetStartId | src/main/java/org/pfsw/db/util/DefaultIdGeneratorCategorySpec.java:57-61 | sets the start id and changes no other field |
| CategorySpecs.SetBlockSize | src/main/java/org/pfsw/db/util/DefaultIdGeneratorCategorySpec.java:69-73 | sets the block size and changes no other field |
| CategorySpecs.SetLength | src/main/java/org/pfsw/db/util/DefaultIdGeneratorCategorySpec.java:81-85 | sets the length and changes no other field |
| CategorySpecs.SetPaddingChar | src/main/java/org/pfsw/db/util/DefaultIdGeneratorCategorySpec.java:93-97 | sets the padding character and changes no other field |
| CategorySpecs.SetIdPrefix | src/main/java/org/pfsw/db/util/DefaultIdGeneratorCategorySpec.java:105-109 | sets the prefix and changes no other field |
| CategorySpecs.ConfigureKeepsName | src/main/java/org/pfsw/db/util/DefaultIdGeneratorCategorySpec.java:27-43 | the name is final: no chain of setters changes it |
| CategorySpecs.ConfigureLastStartIdWins | src/main/java/org/pfsw/db/util/DefaultIdGeneratorCategorySpec.java:57-109 | setters of other fields keep the start id; the last `setStartId` of a chain wins |
| CategorySpecs.DefaultSpecIsUnpadded | src/test/java/org/pfsw/db/util/DefaultMultiCategoryIdentifierGeneratorTest.java:109-110 | with the defaults, identifiers are plain decimal numbers |
| CategorySpecs.SettingsTextEnds | src/main/java/org/pfsw/db/util/DefaultIdGeneratorCategorySpec.java:111-116 | the text after the name ends with `')` |
| CategorySpecs.SettingsTextIdentifiesSettings | src/main/java/org/pfsw/db/util/DefaultIdGeneratorCategorySpec.java:111-116 | the text after the name is equal for two specs if and only if start id, block size, length and padding character agree and the prefixes print alike (null and "null" print alike) |
| CategorySpecs.ToString | src/main/java/org/pfsw/db/util/DefaultIdGeneratorCategorySpec.java:111-116 | the class name, `('`, the name (or "null"), and ending `')` |
| CategorySpecs.ToStringIdentifiesSettings | src/main/java/org/pfsw/db/util/DefaultIdGeneratorCategorySpec.java:111-116 | for specs whose names print alike, the texts are equal if and only if the five other settings agree as above |
| CategorySpecs.DefaultSpecText | src/main/java/org/pfsw/db/util/DefaultIdGeneratorCategorySpec.java:111-116 | the default spec "Delta" prints as `DefaultIdGeneratorCategorySpec('Delta', start=1, blockSize=10, length=0, padChar=0, prefix='null')` |
| Registry.Empty | src/main/java/org/pfsw/db/util/DefaultMultiCategoryIdentifierGenerator.java:36-39 | a new registry has no producers |
| Registry.NormalizeCategory | src/main/java/org/pfsw/db/util/DefaultMultiCategoryIdentifierGenerator.java:116-119 | null stays null; any other name is trimmed |
| Registry.Register | src/main/java/org/pfsw/db/util/DefaultMultiCategoryIdentifierGenerator.java:84-96 | a null or blank name, or a null producer, leaves the map unchanged; otherwise the trimmed name maps to the producer and every other key keeps its producer |
| Registry.GetIdProducer | src/main/java/org/pfsw/db/util/DefaultMultiCategoryIdentifierGenerator.java:98-114 | succeeds if and only if the name is non-null and its trim is a key, giving that producer; null and unknown names fail with their messages |
| Registry.Delegate | src/main/java/org/pfsw/db/util/DefaultMultiCategoryIdentifierGenerator.java:41-73 | every failure is an identifier-generation failure; a failed lookup is passed on and changes nothing; otherwise the producer's new state replaces the old under the trimmed name, no key is added or removed, its result and its own identifier-generation failures pass unchanged, and other failures are wrapped with the original as cause |
| Registry.NewIdentifier | src/main/java/org/pfsw/db/util/DefaultMultiCategoryIdentifierGenerator.java:41-56 | succeeds if and only if the category is registered and its producer succeeds; the keys stay |
| Registry.NextIdentifier | src/main/java/org/pfsw/db/util/DefaultMultiCategoryIdentifierGenerator.java:58-73 | succeeds if and only if the category is registered and its producer succeeds; the keys stay |
| Registry.Calls | src/main/java/org/pfsw/db/util/DefaultMultiCategoryIdentifierGenerator.java:41-73 | k successive calls give k results and keep the keys |
| Registry.CallsFollowProducer | src/main/java/org/pfsw/db/util/DefaultMultiCategoryIdentifierGenerator.java:41-73 | k calls through the registry give what k direct calls of the producer give, foreign failures wrapped, and leave the producer in the state those calls leave it in |
| Registry.ProducerCallsAfter | src/main/java/org/pfsw/db/util/DefaultMultiCategoryIdentifierGenerator.java:41-73 | call i of a run sees the producer state the first i calls left |
| Registry.GeneratorAfter | src/main/java/org/pfsw/db/util/ObjectIdentifierGenerator.java:28 | a generator producer is i higher after i calls |
| Registry.ProducerCallsEnd | src/main/java/org/pfsw/db/util/ObjectIdentifierGenerator.java:28 | k generator calls leave the counter k higher |
| Registry.RegisteredGeneratorCountsOn | src/test/java/org/pfsw/db/util/DefaultMultiCategoryIdentifierGeneratorTest.java:87-99 | successive `nextIdentifier` calls for a registered category give start, start+1, ...; the registry keeps the advanced producer |
| Registry.RegisterThenLookup | src/main/java/org/pfsw/db/util/DefaultMultiCategoryIdentifierGenerator.java:84-114 | after registering a name, every spelling with the same trim finds the producer |
| Registry.RegisterLeavesOtherLookups | src/main/java/org/pfsw/db/util/DefaultMultiCategoryIdentifierGenerator.java:84-114 | registering one name changes no other name's lookup |
| Registry.RegisterKeepsKeysTrimmed | src/main/java/org/pfsw/db/util/DefaultMultiCategoryIdentifierGenerator.java:84-96 | every key stays trimmed and non-empty |
| Registry.ForeignFailureIsWrapped | src/main/java/org/pfsw/db/util/DefaultMultiCategoryIdentifierGenerator.java:69-72 | a foreign failure becomes "Unable to generate next identifier for category '<name as given>'" with the original as cause |
| Registry.LookupIsCaseSensitive | src/main/java/org/pfsw/db/util/DefaultMultiCategoryIdentifierGenerator.java:108-112 | " Alpha " finds "Alpha" but "alpha" does not |
| Registry.NullCategoryRefused | src/main/java/org/pfsw/db/util/DefaultMultiCategoryIdentifierGenerator.java:103-107 | a null category fails with "Cannot generate identifier for category=null" |
| MultiCategoryBuilder.Create | src/main/java/org/pfsw/db/util/DBMultiCategoryIdGeneratorBuilder.java:29-50 | no specs, the default table spec, flag false |
| MultiCategoryBuilder.SetTableSpec | src/main/java/org/pfsw/db/util/DBMultiCategoryIdGeneratorBuilder.java:143-147 | null installs a fresh default table spec, anything else replaces it; nothing else changes |
| MultiCategoryBuilder.CreateWithTable | src/main/java/org/pfsw/db/util/DBMultiCategoryIdGeneratorBuilder.java:40-43 | `create` followed by `tableSpec` |
| MultiCategoryBuilder.TableAlreadyCreated | src/main/java/org/pfsw/db/util/DBMultiCategoryIdGeneratorBuilder.java:152-156 | sets only the flag |
| MultiCategoryBuilder.IsNewName | src/main/java/org/pfsw/db/util/DBMultiCategoryIdGeneratorBuilder.java:184-194 | true if and only if no listed name equals the new one ignoring case |
| MultiCategoryBuilder.IsNewCategoryAsWritten | src/main/java/org/pfsw/db/util/DBMultiCategoryIdGeneratorBuilder.java:184-194 | as written: no stored (untrimmed) name equals the name ignoring case |
| MultiCategoryBuilder.AddSpecAsWritten | src/main/java/org/pfsw/db/util/DBMultiCategoryIdGeneratorBuilder.java:121-137 | as written: the spec is appended if and only if its name is not blank and its trim matches no stored name ignoring case, otherwise nothing changes; table spec and flag stay; all-accepted and the no-earlier-match invariant are kept |
| MultiCategoryBuilder.AppendKeepsNoEarlierMatch | src/main/java/org/pfsw/db/util/DBMultiCategoryIdGeneratorBuilder.java:127-133 | appending a spec the check as written lets through keeps every stored name accepted and different from the trimmed names after it |
| MultiCategoryBuilder.AddSpecsAsWritten | src/main/java/org/pfsw/db/util/DBMultiCategoryIdGeneratorBuilder.java:121-137 | as written, the list only grows by appending: old entries and order kept, every new entry from the arguments, table spec and flag unchanged, both invariants kept |
| MultiCategoryBuilder.AddSpecsAsWrittenSound | src/main/java/org/pfsw/db/util/DBMultiCategoryIdGeneratorBuilder.java:125-135 | as written, every appended spec is accepted and its trimmed name matches no name stored before it, ignoring case |
| MultiCategoryBuilder.AddSpecsAsWrittenComplete | src/main/java/org/pfsw/db/util/DBMultiCategoryIdGeneratorBuilder.java:125-135 | as written, every argument with a non-blank name was appended, or some stored name equals its trimmed name ignoring case |
| MultiCategoryBuilder.IsNewCategory | src/main/java/org/pfsw/db/util/DBMultiCategoryIdGeneratorBuilder.java:184-194 | corrected: no collected trimmed name equals the name ignoring case |
| MultiCategoryBuilder.AddSpec | src/main/java/org/pfsw/db/util/DBMultiCategoryIdGeneratorBuilder.java:121-137 | corrected: a spec is appended exactly when its name is not blank and new; otherwise nothing changes; names stay distinct |
| MultiCategoryBuilder.AppendKeepsDistinct | src/main/java/org/pfsw/db/util/DBMultiCategoryIdGeneratorBuilder.java:130-133 | corrected: appending an accepted spec with a new name keeps the names distinct |
| MultiCategoryBuilder.AddSpecs | src/main/java/org/pfsw/db/util/DBMultiCategoryIdGeneratorBuilder.java:121-137 | corrected: the list only grows by appending: old entries and order kept, every new entry from the arguments, names stay distinct |
| MultiCategoryBuilder.AddSpecsSound | src/main/java/org/pfsw/db/util/DBMultiCategoryIdGeneratorBuilder.java:125-135 | corrected: every appended spec is accepted and its trimmed name matches no trimmed name collected before it, ignoring case |
| MultiCategoryBuilder.AddSpecsComplete | src/main/java/org/pfsw/db/util/DBMultiCategoryIdGeneratorBuilder.java:125-135 | corrected: every argument with a non-blank name was appended, or a collected trimmed name equals its trimmed name ignoring case |
| MultiCategoryBuilder.DefaultSpecs | src/main/java/org/pfsw/db/util/DBMultiCategoryIdGeneratorBuilder.java:111 | one default spec per name, in order |
| MultiCategoryBuilder.AddNamesIsAddSpecs | src/main/java/org/pfsw/db/util/DBMultiCategoryIdGeneratorBuilder.java:103-116 | adding names is adding their default specs, as written, in argument order, blank ones skipped |
| MultiCategoryBuilder.Add | src/main/java/org/pfsw/db/util/DBMultiCategoryIdGeneratorBuilder.java:55-65 | the spec with the given name and start id and every other setting at its default is appended if and only if the check as written lets it through, else nothing changes; both invariants kept |
| MultiCategoryBuilder.AddWithBlockSize | src/main/java/org/pfsw/db/util/DBMultiCategoryIdGeneratorBuilder.java:70-81 | the spec with the given name, start id and block size and the other settings at their defaults is appended if and only if the check as written lets it through, else nothing changes; both invariants kept |
| MultiCategoryBuilder.AddWithLength | src/main/java/org/pfsw/db/util/DBMultiCategoryIdGeneratorBuilder.java:86-98 | the spec with the given name, start id, block size and length, default padding and no prefix is appended if and only if the check as written lets it through, else nothing changes; both invariants kept |
| MultiCategoryBuilder.RegisterAllKeys | src/main/java/org/pfsw/db/util/DBMultiCategoryIdGeneratorBuilder.java:158-179 | the build loop registers exactly the old keys plus the specs' trimmed names |
| MultiCategoryBuilder.RegisterAllUntouched | src/main/java/org/pfsw/db/util/DBMultiCategoryIdGeneratorBuilder.java:158-179 | keys no spec uses keep their producer |
| MultiCategoryBuilder.RegisterAllLastWins | src/main/java/org/pfsw/db/util/DBMultiCategoryIdGeneratorBuilder.java:158-179 | the last spec with a key is the one registered under it |
| MultiCategoryBuilder.RegisterAllKeysWithin | src/main/java/org/pfsw/db/util/DBMultiCategoryIdGeneratorBuilder.java:158-179 | the build loop adds no key other than the specs' trimmed names, whatever the specs |
| MultiCategoryBuilder.BuildRegistersEverySpec | src/main/java/org/pfsw/db/util/DBMultiCategoryIdGeneratorBuilder.java:158-179 | for any collection the builder reaches, duplicates included: the keys are exactly the collected trimmed names, and the last spec collected under a trimmed name finds the producer built from it with the shared table spec and flag |
| MultiCategoryBuilder.BuildRegistersEveryDistinctSpec | src/main/java/org/pfsw/db/util/DBMultiCategoryIdGeneratorBuilder.java:158-179 | corrected: with distinct trimmed names every collected spec finds its own producer |
| MultiCategoryBuilder.BuildRefusesUnknown | src/main/java/org/pfsw/db/util/DBMultiCategoryIdGeneratorBuilder.java:158-179 | a name whose trim no collected spec has is refused with the not-registered message |
| MultiCategoryBuilder.CaseVariantSkipped | src/test/java/org/pfsw/db/util/DefaultMultiCategoryIdentifierGeneratorTest.java:175-186 | after `add("Alpha", 1000, 1)`, the names "alpha", null and " " are all skipped |
| MultiCategoryBuilder.UntrimmedDuplicateOverridesFirst | src/main/java/org/pfsw/db/util/DBMultiCategoryIdGeneratorBuilder.java:184-194 | as written, " Beta" then "Beta" are both collected and the second wins the key "Beta" |
| MultiCategoryBuilder.TrimmedDuplicateSkipped | src/main/java/org/pfsw/db/util/DBMultiCategoryIdGeneratorBuilder.java:127-133 | corrected, the second "Beta" is skipped and "Beta" keeps the first spec |
| MultiCategoryBuilder.TrimmedNoEarlierMatchIsDistinct | src/main/java/org/pfsw/db/util/DBMultiCategoryIdGeneratorBuilder.java:184-194 | when every stored name is already trimmed, the invariant kept as written gives distinct names |
| MultiCategoryBuilder.AsWrittenAgreesOnTrimmedNames | src/main/java/org/pfsw/db/util/DBMultiCategoryIdGeneratorBuilder.java:184-194 | when every stored name is already trimmed, the check as written and the corrected check agree |

## Left out

- JDBC plumbing is out: connections, statements, commits, `DataSourceProxy`, `SQLExecutor` and `DBUtil`. Each round trip is one atomic step on an abstract table, and its failure is the `Fault` argument.
- The literal SQL text is out. Only its effect on the abstract table is modelled.
- NEXTID is stored as VARCHAR and read with `Long.parseLong`. An unparsable value is out, since the abstract row holds an integer.
- Threads, synchronization and processes racing to create the table are out. Interleavings are modelled at the granularity of whole refills and bootstraps.
- `long` and `int` widths are out. Ids and block sizes are unbounded integers, so `nextId + blockSize` does not wrap.
- Logging is out: the warnings of `register` and the SQL error reports. `InitFailureMessage` keeps only the text.
- `ObjectIdentifierDBBuilder` and its `configureCategory` are out. A producer the builder registers is represented by the configuration it is built from: the spec, the table spec and the flag.
- The builder's table spec is not threaded into the allocator. The allocator always uses the default table and column names. The shown `ObjectIdentifierDBBuilder` calls table-name setters that the shown `ObjectIdentifierDB` does not have.
- The unseen base class `org.pfsw.text.ObjectIdGenerator` is assumed to work as follows:
  - `nextIdentifier` is `getNextId()` followed by `setNextId(id + 1)`;
  - the defaults are start 1, length 10, '0' padding and no prefix;
  - formatting is prefix + left-padded decimal.
- JavaText.IsNullOrBlank: `StringUtil.isNullOrBlank` is not part of this model. It is taken to mean null, or empty after `trim`.
- JavaText.EqualsIgnoreCase: compares case only for ASCII letters. Java's full Unicode case mapping is not modelled.
- Null column or table names in `IdGeneratorTableSpec` are not modelled, since the setters accept any value and nothing here reads it.
- CategorySpecs.SpecFormat: the identifier format of a spec's producer is assumed to be the spec's prefix, length and padding character. `ObjectIdentifierDBBuilder.configureCategory`, which sets it, is not part of this model. The assumption is used only by `DefaultSpecIsUnpadded`, for specs without prefix.
- The registry test expects the EPSILON category's ids without the "ET" prefix its spec sets. That suggests `configureCategory` does not pass the prefix on, against the assumption above. Since it is not part of this model, neither reading is stated for a spec with a prefix.
- IdentifierDB.TableInitialized: the probes `checkTableExists` and `checkCategoryRowExists` catch an `SQLException` and answer false, and the model has no fault for either probe. A failed table probe on an existing table makes the code attempt CREATE TABLE, which then fails; in the model `CreateTableFault` acts only when the table is missing, so that path is not modelled. A failed row probe on an existing row leads to a second INSERT; a second row for one category cannot be represented by the row map, so that path is not modelled either.
- Registry.Delegate: a producer registered under several names is one shared object in the source, so a call under one name advances it for all of them. The model keeps a separate copy of the producer per key, and a call advances only the copy under the name looked up.
- MultiCategoryBuilder.AddSpecAsWritten: the builder keeps each spec object by reference and reads it only on `build`, so a setter called on a spec after adding it changes what gets registered. The model stores the spec's value at the time it was added. A null element passed to `addCategories(spec...)` throws a `NullPointerException` in the source; a list of spec values cannot hold one, so that failure is not modelled.
- MultiCategoryBuilder.Build: the builder's registry is a final field that `build` registers into and returns. Each `Build` starts from an empty registry, so calling `build` twice on one builder (which re-registers into the same object) is not modelled.

## Findings

| source | as written | input that shows it | evidently intended | confidence | as-written member | corrected member |
|---|---|---|---|---|---|---|
| code/PF-DB/src/main/java/org/pfsw/db/util/ObjectIdentifierDB.java:280-288 | when the UPDATE of NEXTID throws, the exception is logged and swallowed. `idFromDB` still returns the id it read and `loadNextIdFromDB` installs it as the next id, but no block was reserved. | row "Beta" = (1000, 5); the first call's UPDATE fails; the second call refills normally; both calls return 1000 | a failed refill reserves nothing and hands out nothing, so ids stay unique | not executed | IdentifierDB.FailedUpdateRepeatsId | BlockReservation.RunIssuesDistinct |
| src/main/java/org/pfsw/db/util/DBMultiCategoryIdGeneratorBuilder.java:184-194 | `isNewCategory` compares the trimmed new name with each stored name untrimmed | `addCategories(" Beta" with start 2000, "Beta")`: both specs are collected, both register under "Beta", and the second replaces the first | a name is new only if no collected name has the same trim ignoring case, so the first spec for a name wins | not executed | MultiCategoryBuilder.UntrimmedDuplicateOverridesFirst | MultiCategoryBuilder.TrimmedDuplicateSkipped |
