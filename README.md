# Bootcamp registration service: a Dafny model

This project models the core of the `onclass_bootcamp_service` microservice. The service stores
bootcamps. Each bootcamp names one to four capacities, held by a separate capacity service, and
each capacity names technologies, held by a technology service. The model covers:

- **Registration** (`BootcampUseCase.register`): the null check, the field checks, the
  capacity-count and duplicate checks, the existence check against the capacity service, the
  name-uniqueness check, and the save. `UseCase.Register` is a module-level method that takes the
  in-memory store as a parameter and modifies it. It writes only when every check passes.
- **Pagination values**: `PageRequest` with its bounds, offset and limit; `Page.of` with its
  total-page count.
- **The store**: the `bootcamps` and `bootcamp_capacities` tables, as sequences of rows. The four
  `ORDER BY … LIMIT offset, limit` queries become sort-then-slice functions. The link queries
  become filters. `save` is a method of the `PersistenceAdapter.BootcampStore` class, with a loop
  that writes one link row per capacity id.
- **The two gateway adapters**: deduplicate the ids through a set, call the remote service once
  per distinct id, drop failed calls, and (for capacities) project each answer onto four fields.
  A remote call is a function `id -> Option<answer>`; None is a failed call.
- **The entry-point glue**: `BootcampMapper`, plus the parts of `BootcampHandlerImpl` that decide
  something. These are query-parameter defaults, the sort and order choice, error-to-status
  mapping, `getById`, `create`, and how each listed item is assembled.

Results that the reactive code yields in no promised order are multisets: `fetchByIds`,
`findAll`, the content of a listed page, and the capacity ids that `findById` and `findAll` read
back for a bootcamp (their link query has no ORDER BY, and `save` writes the links concurrently). Inside the model a fixed order is used, and every
property about those results is stated without it.

The validators are functions of the request alone, so running them twice gives the same outcome.
`UseCase.Register` reads the store only through `PreSaveChecks` before it writes.

### Two points of the code's order and leniency

- **The field checks run before the capacity rules.** `register` calls `validateBasics` in
  `doOnNext` and only then, inside `flatMap`, `validateCapacityRules`
  (`BootcampUseCase.java:34-38`). A request with a blank name and no capacities is therefore
  refused for its name. `UseCase.NameCheckedBeforeCapacities` shows this.
- **The existence check is lenient.** `findExistingIds` is built on `fetchByIds`
  (`CapacityWebClientAdapter.java:40`), and `fetchByIds` ends each per-id call with
  `onErrorResume(ex -> Mono.empty())` (`CapacityWebClientAdapter.java:63`). A failed call is
  therefore dropped and never ends the flux. A capacity that cannot be read just shortens the list
  of found ids, and registration fails with CAPACITY_NOT_FOUND
  (`UseCase.PreSaveChecksAgainstHonestService`, second clause). The flux ends in an error
  (`UseCase.Failure.Gateway`, answered with 500) in only two cases: `Flux.timeout` fires because no
  element arrived within 5 seconds of the previous one (or of the subscription), or an answer has
  no id.

## Model

Paths are relative to the repository root.

| member | source | states |
|---|---|---|
| JavaText.WrapToInt | src/main/java/com/onclass/bootcamp/infrastructure/adapters/persistenceadapter/BootcampPersistenceAdapter.java:38 | the `(int)` cast of a long keeps values in the int range and otherwise differs from its input by a multiple of 2^32 |
| JavaText.Utf16Length | src/main/java/com/onclass/bootcamp/domain/usecase/BootcampUseCase.java:75-81 | `String.length()` counts at least one and at most two UTF-16 units per character, and exactly one per character inside the Basic Multilingual Plane |
| JavaText.IsJavaWhitespace | src/main/java/com/onclass/bootcamp/domain/usecase/BootcampUseCase.java:72 | the characters `Character.isWhitespace` accepts: U+0009..U+000D, U+001C..U+0020 and the Unicode space, line and paragraph separators except the no-break spaces U+00A0, U+2007 and U+202F |
| JavaText.IsBlank | src/main/java/com/onclass/bootcamp/domain/usecase/BootcampUseCase.java:72 | `String.isBlank`: empty, or made only of those whitespace characters |
| JavaText.BlankExamples | src/main/java/com/onclass/bootcamp/domain/usecase/BootcampUseCase.java:72 | "", " \t\n" and em and ideographic spaces are blank; a no-break space, a figure space and " a " are not |
| JavaText.Lower | src/main/java/com/onclass/bootcamp/infrastructure/entrypoints/handler/BootcampHandlerImpl.java:72 | lower-casing keeps the length and maps every character on its own |
| JavaText.LowerIdempotent | src/main/java/com/onclass/bootcamp/infrastructure/entrypoints/handler/BootcampHandlerImpl.java:76 | lower-casing twice is lower-casing once |
| JavaText.ParseNumeral | src/main/java/com/onclass/bootcamp/infrastructure/entrypoints/handler/BootcampHandlerImpl.java:128 | a string is read as a number exactly when it is an optional sign followed by one or more digits, and then its value is the digits' decimal value, negated after a minus sign |
| JavaText.NonCanonicalNumerals | src/main/java/com/onclass/bootcamp/infrastructure/entrypoints/handler/BootcampHandlerImpl.java:128 | "+5", "007" and "-0" are accepted as 5, 7 and 0; "", "+", "-", "1 " and "--1" are rejected |
| JavaText.ParseInt | src/main/java/com/onclass/bootcamp/infrastructure/entrypoints/handler/BootcampHandlerImpl.java:128 | `Integer.parseInt` succeeds exactly on numerals whose value fits an int, and returns that value |
| JavaText.ParseLong | src/main/java/com/onclass/bootcamp/infrastructure/entrypoints/handler/BootcampHandlerImpl.java:175 | `Long.valueOf` succeeds exactly on numerals whose value fits a long, and returns that value |
| JavaText.ParseNumeralOfToDecimal | src/main/java/com/onclass/bootcamp/infrastructure/entrypoints/handler/BootcampHandlerImpl.java:128 | every integer written out in decimal reads back as itself |
| JavaText.ParseIntOfToDecimal | src/main/java/com/onclass/bootcamp/infrastructure/entrypoints/handler/BootcampHandlerImpl.java:128 | `parseInt` reads back every int that `Integer.toString` writes |
| JavaText.ParseLongOfToDecimal | src/main/java/com/onclass/bootcamp/infrastructure/entrypoints/handler/BootcampHandlerImpl.java:175 | `Long.valueOf` reads back every long that `Long.toString` writes |
| Messages.RegistrationMessageCodes | src/main/java/com/onclass/bootcamp/domain/enums/TechnicalMessage.java:15-29 | every message registration can raise has code "400", except CAPACITY_NOT_FOUND, whose code is "404"; the three capacity messages name the field "capacityIds" |
| Sorting.SortSorted | src/main/java/com/onclass/bootcamp/infrastructure/adapters/persistenceadapter/repository/BootcampRepository.java:17 | sorting by a total preorder gives a sequence in that order that is a permutation of the input |
| Sorting.LexTotal | src/main/java/com/onclass/bootcamp/infrastructure/adapters/persistenceadapter/repository/BootcampRepository.java:17 | any two names compare under the name order |
| Sorting.LexTransitive | src/main/java/com/onclass/bootcamp/infrastructure/adapters/persistenceadapter/repository/BootcampRepository.java:17 | the name order is transitive |
| Sorting.LexAntisymmetric | src/main/java/com/onclass/bootcamp/infrastructure/adapters/persistenceadapter/repository/BootcampRepository.java:17 | two names that each precede the other are equal |
| Pages.NewPageRequest | src/main/java/com/onclass/bootcamp/domain/model/PageRequest.java:4-7 | a page request exists exactly when page >= 0 and 1 <= size <= 100; a negative page is reported before a bad size |
| Pages.Offset | src/main/java/com/onclass/bootcamp/domain/model/PageRequest.java:8 | the offset fits a long for any two ints; for a valid request it lies between 0 and 100 * Integer.MAX_VALUE and divides back into the page |
| Pages.ProductOfIntsFitsLong | src/main/java/com/onclass/bootcamp/domain/model/PageRequest.java:8 | the product of two ints never overflows a long |
| Pages.Limit | src/main/java/com/onclass/bootcamp/domain/model/PageRequest.java:9 | the limit is exactly the page size, so for a valid request it is between 1 and 100 |
| Pages.CeilDiv | src/main/java/com/onclass/bootcamp/domain/model/Page.java:7 | the smallest number of pages of the given size that holds total rows: 0 for no rows, total/size for an exact multiple, one more otherwise |
| Pages.TotalPages | src/main/java/com/onclass/bootcamp/domain/model/Page.java:7 | totalPages is that ceiling while it fits an int, and Integer.MAX_VALUE beyond |
| Pages.PageOf | src/main/java/com/onclass/bootcamp/domain/model/Page.java:6-9 | `Page.of` keeps content, page, size and total as given, and derives totalPages as above |
| Pages.PagesCoverRows | src/main/java/com/onclass/bootcamp/domain/model/Page.java:7 | a page number is below totalPages exactly when its first row exists |
| Fanout.Distinct | src/main/java/com/onclass/bootcamp/infrastructure/adapters/capacityadapter/CapacityWebClientAdapter.java:84-87 | deduplication keeps exactly the ids of the input, each once |
| Fanout.DistinctLengthIffNoDuplicates | src/main/java/com/onclass/bootcamp/domain/usecase/BootcampUseCase.java:97 | `distinct().count()` equals the size exactly when no id repeats |
| Fanout.Requests | src/main/java/com/onclass/bootcamp/infrastructure/adapters/capacityadapter/CapacityWebClientAdapter.java:48-53 | a null or empty list asks nothing; otherwise each distinct id is asked exactly once |
| Fanout.Gather | src/main/java/com/onclass/bootcamp/infrastructure/adapters/capacityadapter/CapacityWebClientAdapter.java:53-65 | dropping failed calls gives at most one answer per id, and exactly one when every call succeeds |
| Fanout.GatherCount | src/main/java/com/onclass/bootcamp/infrastructure/adapters/capacityadapter/CapacityWebClientAdapter.java:53-65 | among distinct ids, each answer occurs exactly as often as there are ids it was returned for |
| Fanout.GatherMembers | src/main/java/com/onclass/bootcamp/infrastructure/adapters/capacityadapter/CapacityWebClientAdapter.java:53-65 | every answer kept was returned for some asked id, and every answer returned is kept |
| Fanout.GatherDropsOneFailure | src/main/java/com/onclass/bootcamp/infrastructure/adapters/technologyadapter/TechnologyWebClientAdapter.java:54-64 | among distinct ids, one failed call costs exactly one answer |
| Fanout.GatherIgnoresOrder | src/main/java/com/onclass/bootcamp/infrastructure/adapters/capacityadapter/CapacityWebClientAdapter.java:53-65 | the answers collected do not depend on the order the ids are asked in |
| Fanout.LenientFetch | src/main/java/com/onclass/bootcamp/infrastructure/adapters/capacityadapter/CapacityWebClientAdapter.java:47-66 | nothing for a null or empty list; each answer occurs exactly as often as there are distinct asked ids whose call returned it; so at most one answer per distinct id, and exactly the answers of the calls that succeeded |
| Fanout.LenientFetchIgnoresOrderAndRepeats | src/main/java/com/onclass/bootcamp/infrastructure/adapters/capacityadapter/CapacityWebClientAdapter.java:84-87 | two lists naming the same ids, in any order and with any repetitions, fetch the same answers |
| Fanout.IdsOf | src/main/java/com/onclass/bootcamp/infrastructure/adapters/capacityadapter/CapacityWebClientAdapter.java:41-42 | the distinct ids carried by the answers, no more of them than answers |
| Fanout.ExistingIds | src/main/java/com/onclass/bootcamp/infrastructure/adapters/capacityadapter/CapacityWebClientAdapter.java:40-42 | `map(getId).distinct()` fails exactly when some answer has no id; otherwise it is the set of the answers' ids |
| Fanout.FindExistingIds | src/main/java/com/onclass/bootcamp/infrastructure/adapters/capacityadapter/CapacityWebClientAdapter.java:37-44 | findExistingIds of either adapter, over its answers and id getter: empty for a null or empty list; a timeout error when the flux times out; otherwise an error exactly when some requested id is answered without an id, else exactly the ids the answers carry, at most one per distinct requested id |
| Fanout.NullIdOfGathered | src/main/java/com/onclass/bootcamp/infrastructure/adapters/capacityadapter/CapacityWebClientAdapter.java:41 | the id mapping fails exactly when some requested id is answered without an id |
| Fanout.FoundIdsAreAnswered | src/main/java/com/onclass/bootcamp/infrastructure/adapters/capacityadapter/CapacityWebClientAdapter.java:40-42 | every id found is carried by the answer for some requested id |
| Fanout.AnsweredIdsAreFound | src/main/java/com/onclass/bootcamp/infrastructure/adapters/capacityadapter/CapacityWebClientAdapter.java:40-42 | the id of every answer that arrived is found |
| Fanout.HonestFindExistingIds | src/main/java/com/onclass/bootcamp/infrastructure/adapters/capacityadapter/CapacityWebClientAdapter.java:37-44 | against a service that answers each id with the entity of that id, the ids found are exactly the requested ids it knows |
| CapacityAdapter.ToIdNameOnly | src/main/java/com/onclass/bootcamp/infrastructure/adapters/capacityadapter/CapacityWebClientAdapter.java:69-80 | the projection copies id, name, description and technologyIds and nothing else; a null DTO becomes an empty one |
| CapacityAdapter.ProjectionIdempotent | src/main/java/com/onclass/bootcamp/infrastructure/adapters/capacityadapter/CapacityWebClientAdapter.java:69-80 | projecting twice is projecting once, and the projection changes a DTO exactly when it carries further fields |
| CapacityAdapter.GatherProjected | src/main/java/com/onclass/bootcamp/infrastructure/adapters/capacityadapter/CapacityWebClientAdapter.java:53-63 | the projected answers are exactly the projections of the calls that succeeded, one per asked id when all succeed |
| CapacityAdapter.Fetched | src/main/java/com/onclass/bootcamp/infrastructure/adapters/capacityadapter/CapacityWebClientAdapter.java:47-66 | fetchByIds yields nothing for a null or empty list; each projected answer occurs exactly as often as there are distinct asked ids whose call returned something projecting to it; no extra properties survive; one answer per id when all succeed |
| CapacityAdapter.FetchByIds | src/main/java/com/onclass/bootcamp/infrastructure/adapters/capacityadapter/CapacityWebClientAdapter.java:47-66 | the same, as a collection without order: the multiplicity of each projected answer is the number of distinct asked ids answered with it |
| CapacityAdapter.FetchByIdsIsFetched | src/main/java/com/onclass/bootcamp/infrastructure/adapters/capacityadapter/CapacityWebClientAdapter.java:47-66 | the unordered result is the ordered one with its order forgotten |
| CapacityAdapter.FetchByIdsIgnoresOrderAndRepeats | src/main/java/com/onclass/bootcamp/infrastructure/adapters/capacityadapter/CapacityWebClientAdapter.java:84-87 | the order and repetitions of the ids do not change what is fetched |
| CapacityAdapter.FindExistingIds | src/main/java/com/onclass/bootcamp/infrastructure/adapters/capacityadapter/CapacityWebClientAdapter.java:37-44 | empty for a null or empty list; a timeout error when the flux times out; otherwise an error exactly when some answer has no id, else exactly the ids carried by the answers that arrived |
| CapacityAdapter.ProjectedIds | src/main/java/com/onclass/bootcamp/infrastructure/adapters/capacityadapter/CapacityWebClientAdapter.java:62-75 | toIdNameOnly keeps whether an answer arrived and the id it carries |
| CapacityAdapter.HonestFindExistingIds | src/main/java/com/onclass/bootcamp/infrastructure/adapters/capacityadapter/CapacityWebClientAdapter.java:37-44 | against a service that answers each id with itself, the ids found are exactly the requested ids it knows |
| TechnologyAdapter.Fetched | src/main/java/com/onclass/bootcamp/infrastructure/adapters/technologyadapter/TechnologyWebClientAdapter.java:47-65 | fetchByIds yields nothing for a null or empty list; each answer occurs exactly as often as there are distinct asked ids whose call returned it, untouched |
| TechnologyAdapter.FetchByIds | src/main/java/com/onclass/bootcamp/infrastructure/adapters/technologyadapter/TechnologyWebClientAdapter.java:47-65 | the same, as a collection without order, with the same multiplicity of each answer |
| TechnologyAdapter.FetchByIdsIgnoresOrderAndRepeats | src/main/java/com/onclass/bootcamp/infrastructure/adapters/technologyadapter/TechnologyWebClientAdapter.java:67-70 | the order and repetitions of the ids do not change what is fetched |
| TechnologyAdapter.FindExistingIds | src/main/java/com/onclass/bootcamp/infrastructure/adapters/technologyadapter/TechnologyWebClientAdapter.java:36-44 | empty for a null or empty list; a timeout error when the flux times out; otherwise an error exactly when some answer has no id, else exactly the ids of the answers that arrived |
| TechnologyAdapter.HonestFindExistingIds | src/main/java/com/onclass/bootcamp/infrastructure/adapters/technologyadapter/TechnologyWebClientAdapter.java:37-44 | against a service that answers each id with itself, the ids found are exactly the requested ids it knows |
| Repository.CountLinks | src/main/java/com/onclass/bootcamp/infrastructure/adapters/persistenceadapter/repository/BootcampRepository.java:35-37 | a bootcamp's link count is 0 exactly when no link row names it |
| Repository.Joined | src/main/java/com/onclass/bootcamp/infrastructure/adapters/persistenceadapter/repository/BootcampRepository.java:33-36 | the LEFT JOIN and GROUP BY give every bootcamp row once, with its own link count, including bootcamps without links |
| Repository.CountAll | src/main/java/com/onclass/bootcamp/infrastructure/adapters/persistenceadapter/repository/BootcampRepository.java:54-55 | countAll is 0 exactly when no bootcamp name is taken, i.e. when the table holds no row |
| Repository.ExistsByName | src/main/java/com/onclass/bootcamp/infrastructure/adapters/persistenceadapter/repository/BootcampRepository.java:11 | existsByName holds when some stored row carries exactly that name |
| Repository.Precedes | src/main/java/com/onclass/bootcamp/infrastructure/adapters/persistenceadapter/repository/BootcampRepository.java:14-51 | the four ORDER BY keys: name ascending, name descending, and link count ascending or descending with ties broken by name ascending |
| Repository.PrecedesIsTotalPreorder | src/main/java/com/onclass/bootcamp/infrastructure/adapters/persistenceadapter/repository/BootcampRepository.java:14-51 | each of the four ORDER BY clauses compares every two rows, consistently |
| Repository.Ordered | src/main/java/com/onclass/bootcamp/infrastructure/adapters/persistenceadapter/repository/BootcampRepository.java:32-37 | the ordered join has one entry per bootcamp row |
| Repository.Window | src/main/java/com/onclass/bootcamp/infrastructure/adapters/persistenceadapter/repository/BootcampRepository.java:18 | `LIMIT offset, limit` skips offset rows and keeps the next ones, at most limit; an offset past the end keeps none |
| Repository.FindPageOrderBy | src/main/java/com/onclass/bootcamp/infrastructure/adapters/persistenceadapter/repository/BootcampRepository.java:14-51 | each page query returns the rows at positions offset onwards of its order: exactly limit of them when that many remain, the rest of the table when fewer remain, and nothing when offset reaches countAll |
| Repository.OrderedIsSortedJoin | src/main/java/com/onclass/bootcamp/infrastructure/adapters/persistenceadapter/repository/BootcampRepository.java:32-48 | each query's order is sorted by its ORDER BY, lists every bootcamp row exactly once, and carries each row's own link count |
| Repository.CapacityCountDescTieBreak | src/main/java/com/onclass/bootcamp/infrastructure/adapters/persistenceadapter/repository/BootcampRepository.java:48 | by capacity count descending, more links come first and equal counts go by name ascending |
| Repository.CountAllIsOrderedLength | src/main/java/com/onclass/bootcamp/infrastructure/adapters/persistenceadapter/repository/BootcampRepository.java:53-55 | countAll is the number of rows the page queries range over |
| Repository.FirstPagesArePrefix | src/main/java/com/onclass/bootcamp/infrastructure/adapters/persistenceadapter/repository/BootcampRepository.java:18 | consecutive pages neither skip nor repeat a row: the first n pages are a prefix of the order |
| Repository.LinksOf | src/main/java/com/onclass/bootcamp/infrastructure/adapters/persistenceadapter/repository/BootcampCapacityRepository.java:17 | `WHERE bootcamp_id IN (…)` keeps exactly the link rows of those bootcamps, each as often as it is stored |
| Repository.FindCapacityIdsByBootcampIdsQuery | src/main/java/com/onclass/bootcamp/infrastructure/adapters/persistenceadapter/repository/BootcampCapacityRepository.java:14-20 | the link query is a rearrangement of the selected rows |
| Repository.LinkQuerySortedSelection | src/main/java/com/onclass/bootcamp/infrastructure/adapters/persistenceadapter/repository/BootcampCapacityRepository.java:14-20 | the link query returns exactly the wanted rows, sorted by capacity id ascending |
| Repository.CapacityIdsOf | src/main/java/com/onclass/bootcamp/infrastructure/adapters/persistenceadapter/BootcampPersistenceAdapter.java:112-114 | a bootcamp's capacity ids are one per link row naming it, and exactly the capacities it is linked to |
| Repository.CapacityIdsOfCount | src/main/java/com/onclass/bootcamp/infrastructure/adapters/persistenceadapter/BootcampPersistenceAdapter.java:93 | each capacity id occurs among a bootcamp's read-back ids as often as its link row is stored |
| Repository.FindRowById | src/main/java/com/onclass/bootcamp/infrastructure/adapters/persistenceadapter/BootcampPersistenceAdapter.java:110 | the row found has the id asked for; nothing is found exactly when no row has it |
| PersistenceAdapter.KeyFor | src/main/java/com/onclass/bootcamp/infrastructure/adapters/persistenceadapter/BootcampPersistenceAdapter.java:41-49 | CAPACITY_COUNT selects the count query of the given order; NAME selects the name query of the given order |
| PersistenceAdapter.KeyForIsOneToOne | src/main/java/com/onclass/bootcamp/infrastructure/adapters/persistenceadapter/BootcampPersistenceAdapter.java:41-49 | each of the four queries is reached from exactly one choice of sort and order |
| PersistenceAdapter.ToModel | src/main/java/com/onclass/bootcamp/infrastructure/adapters/persistenceadapter/mapper/BootcampEntityMapper.java:11-16 | `toModel` copies the five columns and leaves capacityIds null |
| PersistenceAdapter.Reassembled | src/main/java/com/onclass/bootcamp/infrastructure/adapters/persistenceadapter/BootcampPersistenceAdapter.java:112-122 | a row read back carries its columns and exactly its linked capacity ids |
| PersistenceAdapter.FindPageAsWritten | src/main/java/com/onclass/bootcamp/infrastructure/adapters/persistenceadapter/BootcampPersistenceAdapter.java:36-51 | findPage as written: refused (QueryRejected) exactly when the wrapped offset is negative; otherwise the rows of the chosen order from the wrapped offset onwards, as many as remain up to size, none of them carrying capacity ids |
| PersistenceAdapter.FindPage | src/main/java/com/onclass/bootcamp/infrastructure/adapters/persistenceadapter/BootcampPersistenceAdapter.java:36-51 | findPage as intended: the rows from position page * size of the chosen order, exactly size of them when that many remain and the rest otherwise, each with its capacity ids; empty past the last row |
| PersistenceAdapter.FindPageAsWrittenBelowIntMax | src/main/java/com/onclass/bootcamp/infrastructure/adapters/persistenceadapter/BootcampPersistenceAdapter.java:37-38 | while the offset fits an int, the code as written returns the intended rows, apart from the capacity ids |
| PersistenceAdapter.OffsetCastRefusesPage | src/main/java/com/onclass/bootcamp/infrastructure/adapters/persistenceadapter/BootcampPersistenceAdapter.java:38 | page 21474837 of size 100 is refused as written, although the intended page is merely empty |
| PersistenceAdapter.OffsetCastReturnsWrongRows | src/main/java/com/onclass/bootcamp/infrastructure/adapters/persistenceadapter/BootcampPersistenceAdapter.java:38 | page 42949673 of size 100 returns rows from position 4 as written, although the intended page is empty |
| PersistenceAdapter.FindById | src/main/java/com/onclass/bootcamp/infrastructure/adapters/persistenceadapter/BootcampPersistenceAdapter.java:108-125 | nothing exactly when no row has the id; otherwise that row with its capacity ids |
| PersistenceAdapter.FindAll | src/main/java/com/onclass/bootcamp/infrastructure/adapters/persistenceadapter/BootcampPersistenceAdapter.java:89-106 | one bootcamp per row, each with its capacity ids, in no promised order |
| PersistenceAdapter.FindCapacityIdsByBootcampId | src/main/java/com/onclass/bootcamp/infrastructure/adapters/persistenceadapter/BootcampPersistenceAdapter.java:127-133 | exactly the capacity ids linked to that bootcamp, each as often as its link row is stored, in ascending order |
| PersistenceAdapter.OneBootcampQuery | src/main/java/com/onclass/bootcamp/infrastructure/adapters/persistenceadapter/BootcampPersistenceAdapter.java:129-130 | the link query for one bootcamp reads exactly that bootcamp's link rows, each as often as stored, sorted by capacity id |
| PersistenceAdapter.CapacityIdsOfSortedRows | src/main/java/com/onclass/bootcamp/infrastructure/adapters/persistenceadapter/BootcampPersistenceAdapter.java:131-132 | filtering one bootcamp's sorted rows by that bootcamp keeps them all, and their capacity ids ascend |
| PersistenceAdapter.FindCapacityIdsByBootcampIds | src/main/java/com/onclass/bootcamp/infrastructure/adapters/persistenceadapter/BootcampPersistenceAdapter.java:135-142 | nothing for a null or empty collection; otherwise one entry for every stored link row of those bootcamps, as many times as it is stored, by capacity id ascending |
| PersistenceAdapter.EntriesOf | src/main/java/com/onclass/bootcamp/infrastructure/adapters/persistenceadapter/BootcampPersistenceAdapter.java:141 | each link row becomes the entry of its two ids, in the same position |
| PersistenceAdapter.EntriesOfSortedRows | src/main/java/com/onclass/bootcamp/infrastructure/adapters/persistenceadapter/BootcampPersistenceAdapter.java:139-141 | the entries of sorted rows are exactly those rows' pairs, still ordered by capacity id |
| PersistenceAdapter.LinkRows | src/main/java/com/onclass/bootcamp/infrastructure/adapters/persistenceadapter/BootcampPersistenceAdapter.java:67-74 | one link row per capacity id, in list order, each naming the saved bootcamp |
| PersistenceAdapter.LinkRowsCount | src/main/java/com/onclass/bootcamp/infrastructure/adapters/persistenceadapter/BootcampPersistenceAdapter.java:67-74 | each capacity id gets as many link rows as it occurs in the submitted list |
| PersistenceAdapter.SaveTables | src/main/java/com/onclass/bootcamp/infrastructure/adapters/persistenceadapter/BootcampPersistenceAdapter.java:58-87 | save adds one row for a new bootcamp, or replaces the row with its id, and appends one link row per submitted capacity id; a failed update changes nothing |
| PersistenceAdapter.SaveResult | src/main/java/com/onclass/bootcamp/infrastructure/adapters/persistenceadapter/BootcampPersistenceAdapter.java:58-87 | save fails with an update error exactly when the bootcamp has an id no row carries; otherwise it returns the bootcamp under the saved id with its capacity ids, an empty list for null; a new bootcamp gets the next id |
| PersistenceAdapter.SameUpToLinkOrder | src/main/java/com/onclass/bootcamp/infrastructure/adapters/persistenceadapter/BootcampPersistenceAdapter.java:112-114 | two bootcamps agree on every field, their capacity ids compared as multisets |
| PersistenceAdapter.ReplaceRow | src/main/java/com/onclass/bootcamp/infrastructure/adapters/persistenceadapter/BootcampPersistenceAdapter.java:62 | an update replaces the row with that id and leaves every other row alone |
| PersistenceAdapter.SavePreservesInvariant | src/main/java/com/onclass/bootcamp/infrastructure/adapters/persistenceadapter/BootcampPersistenceAdapter.java:58-87 | every save keeps ids positive, unique and below the next id, and every link pointing at an assigned id |
| PersistenceAdapter.InsertKeepsInvariant | src/main/java/com/onclass/bootcamp/infrastructure/adapters/persistenceadapter/BootcampPersistenceAdapter.java:62-74 | inserting a new bootcamp and its links keeps that invariant, with the next id advanced by one |
| PersistenceAdapter.UpdateKeepsInvariant | src/main/java/com/onclass/bootcamp/infrastructure/adapters/persistenceadapter/BootcampPersistenceAdapter.java:62-74 | updating an existing bootcamp and adding its links keeps that invariant |
| PersistenceAdapter.CapacityIdsOfFresh | src/main/java/com/onclass/bootcamp/infrastructure/adapters/persistenceadapter/BootcampPersistenceAdapter.java:67-74 | the links written for a fresh id read back as the submitted capacity ids, each as often as submitted, in no promised order |
| PersistenceAdapter.InsertThenFindById | src/main/java/com/onclass/bootcamp/infrastructure/adapters/persistenceadapter/BootcampPersistenceAdapter.java:58-87 | saving a new bootcamp and reading it back by the returned id finds it; it agrees with what save returned on every field, its capacity ids as a multiset; the table grows by one and the name is taken |
| PersistenceAdapter.UpdateOfMissingRowChangesNothing | src/main/java/com/onclass/bootcamp/infrastructure/adapters/persistenceadapter/BootcampPersistenceAdapter.java:62 | saving under an id no row has fails and writes nothing |
| PersistenceAdapter.BootcampStore.constructor | src/main/java/com/onclass/bootcamp/infrastructure/adapters/persistenceadapter/BootcampPersistenceAdapter.java:26-27 | the store starts with empty tables and ids from 1, and satisfies the invariant |
| PersistenceAdapter.BootcampStore.Save | src/main/java/com/onclass/bootcamp/infrastructure/adapters/persistenceadapter/BootcampPersistenceAdapter.java:58-87 | the loop leaves the tables as SaveTables describes: one row inserted or updated, then one link per capacity id. It returns the id with the submitted capacity ids (empty for null) and keeps the invariant |
| UseCase.ValidateBasics | src/main/java/com/onclass/bootcamp/domain/usecase/BootcampUseCase.java:71-84 | passes exactly when name and description are present, not blank and within 50 and 255 units; a missing or blank name is reported first |
| UseCase.CapacityIdsOrEmpty | src/main/java/com/onclass/bootcamp/domain/usecase/BootcampUseCase.java:86-88 | a null capacity list is the empty list |
| UseCase.ValidateCapacityRules | src/main/java/com/onclass/bootcamp/domain/usecase/BootcampUseCase.java:90-100 | passes exactly for 1 to 4 ids without repetition; too few, too many and repeated ids each give their own message, counts first |
| UseCase.Validate | src/main/java/com/onclass/bootcamp/domain/usecase/BootcampUseCase.java:32-38 | a null request fails with INVALID_REQUEST; a field failure wins over the capacity rules; passes exactly when every rule holds |
| UseCase.ValidateReportsFirstViolation | src/main/java/com/onclass/bootcamp/domain/usecase/BootcampUseCase.java:32-38 | the synchronous checks report the first broken rule, in the order the rules are written, and pass when none is broken |
| UseCase.NameCheckedBeforeCapacities | src/main/java/com/onclass/bootcamp/domain/usecase/BootcampUseCase.java:34-38 | a blank name with no capacities is reported as a name error, not as too few capacities |
| UseCase.CheckCapacitiesExist | src/main/java/com/onclass/bootcamp/domain/usecase/BootcampUseCase.java:104-110 | a gateway error passes through; otherwise the check passes exactly when the number of ids found equals the number submitted, else CAPACITY_NOT_FOUND |
| UseCase.EnsureNameIsUnique | src/main/java/com/onclass/bootcamp/domain/usecase/BootcampUseCase.java:112-117 | passes exactly when no bootcamp has the name; otherwise BOOTCAMP_ALREADY_EXISTS |
| UseCase.PreSaveChecks | src/main/java/com/onclass/bootcamp/domain/usecase/BootcampUseCase.java:31-41 | a validation failure is reported before any port is asked; for a valid request, a failed existence lookup is the result, then fewer ids found than asked gives CAPACITY_NOT_FOUND, then a taken name gives BOOTCAMP_ALREADY_EXISTS; passing means the request is valid and its name is free |
| UseCase.KnownIdsCount | src/main/java/com/onclass/bootcamp/domain/usecase/BootcampUseCase.java:107 | among distinct ids, the known ones are as many as all of them exactly when every id is known |
| UseCase.PreSaveChecksAgainstHonestService | src/main/java/com/onclass/bootcamp/domain/usecase/BootcampUseCase.java:104-110 | against an honest capacity service, the checks pass exactly when the request is valid, every capacity is known and the name is free; an unknown or unreadable capacity gives CAPACITY_NOT_FOUND |
| UseCase.TimeoutIsGatewayFailure | src/main/java/com/onclass/bootcamp/domain/usecase/BootcampUseCase.java:105-109 | a timed-out existence check fails a valid registration with a gateway error |
| UseCase.CountComparisonAcceptsForeignIds | src/main/java/com/onclass/bootcamp/domain/usecase/BootcampUseCase.java:107 | the check compares counts, not ids: a service that answers id a with another capacity c lets [a, b] through |
| UseCase.Register | src/main/java/com/onclass/bootcamp/domain/usecase/BootcampUseCase.java:31-43 | a failed check leaves the store and its next id untouched and is returned; when all pass the store is saved to, the next id advances exactly when a new bootcamp was inserted, and the result is what save returns |
| UseCase.JavaRequestIsValid | src/main/java/com/onclass/bootcamp/domain/usecase/BootcampUseCase.java:34-38 | the request "Java" / "Web" with capacities [10, 20] passes the synchronous checks |
| UseCase.JavaRequestPassesChecks | src/main/java/com/onclass/bootcamp/domain/usecase/BootcampUseCase.java:39-40 | with both capacities known and the name free, it passes every check |
| UseCase.RegisterScenario | src/main/java/com/onclass/bootcamp/domain/usecase/BootcampUseCase.java:31-43 | registering it saves it under a fresh id with the same capacity ids, and findById then returns it with every field equal and the same capacity ids in some order |
| UseCase.ListPage | src/main/java/com/onclass/bootcamp/domain/usecase/BootcampUseCase.java:56-67 | the page holds findPage's rows in findPage's order, echoes page and size, and takes totalElements from countAll |
| UseCase.ListPageAsWritten | src/main/java/com/onclass/bootcamp/domain/usecase/BootcampUseCase.java:56-67 | over findPage as written, a refused query fails the listing with that refusal, and otherwise the page holds its rows, echoes page and size, and takes totalElements from countAll |
| UseCase.PageBeyondLastIsEmpty | src/main/java/com/onclass/bootcamp/domain/usecase/BootcampUseCase.java:61-66 | totalPages does not depend on the page asked for; a page is empty exactly when it is at or beyond totalPages |
| UseCase.AllPagesListEveryRowOnce | src/main/java/com/onclass/bootcamp/domain/usecase/BootcampUseCase.java:56-67 | listing pages 0 up to totalPages one after the other gives every bootcamp of the order exactly once, in order, each with its capacity ids |
| UseCase.PagesUpToReadsFirstPages | src/main/java/com/onclass/bootcamp/domain/usecase/BootcampUseCase.java:56-67 | the first n listed pages, one after the other, are the first n windows of size `size` of the order, read back |
| UseCase.ListedPageIsWindow | src/main/java/com/onclass/bootcamp/domain/usecase/BootcampUseCase.java:56-67 | page k of the listing is the k-th window of the order, read back |
| UseCase.PagesUpToStep | src/main/java/com/onclass/bootcamp/domain/usecase/BootcampUseCase.java:56-67 | fetching one more page appends the next window of the order, read back |
| Mapper.DtoToDomain | src/main/java/com/onclass/bootcamp/infrastructure/entrypoints/mapper/BootcampMapper.java:16-22 | the request's id is dropped and the other five fields are copied |
| Mapper.ToDto | src/main/java/com/onclass/bootcamp/infrastructure/entrypoints/mapper/BootcampMapper.java:25-31 | all six fields are copied |
| Mapper.DtoRoundTrip | src/main/java/com/onclass/bootcamp/infrastructure/entrypoints/mapper/BootcampMapper.java:16-31 | a DTO through the domain and back is unchanged except that its id is null |
| Mapper.DomainRoundTrip | src/main/java/com/onclass/bootcamp/infrastructure/entrypoints/mapper/BootcampMapper.java:16-31 | a bootcamp sent out and read back in is unchanged except that its id is null |
| Mapper.ToDtoInjective | src/main/java/com/onclass/bootcamp/infrastructure/entrypoints/mapper/BootcampMapper.java:25-31 | toDto loses nothing: two bootcamps map to the same DTO exactly when they are equal |
| Mapper.ToListItem | src/main/java/com/onclass/bootcamp/infrastructure/entrypoints/mapper/BootcampMapper.java:34-45 | the five bootcamp fields are copied, the capacities are kept (none for null), and capacityCount is their number |
| Mapper.ToListItemAlone | src/main/java/com/onclass/bootcamp/infrastructure/entrypoints/mapper/BootcampMapper.java:48-50 | the one-argument overload copies the fields and shows no capacities and a count of 0 |
| Mapper.NullCapacitiesAreNoCapacities | src/main/java/com/onclass/bootcamp/infrastructure/entrypoints/mapper/BootcampMapper.java:34-50 | null capacities, an empty list and the one-argument overload give the same item |
| Handler.ParseIntOr | src/main/java/com/onclass/bootcamp/infrastructure/entrypoints/handler/BootcampHandlerImpl.java:127-129 | the parsed value when parseInt succeeds, the default when it throws |
| Handler.PageParam | src/main/java/com/onclass/bootcamp/infrastructure/entrypoints/handler/BootcampHandlerImpl.java:69 | a missing or unparseable page is 0; a parseable one is its value |
| Handler.SizeParam | src/main/java/com/onclass/bootcamp/infrastructure/entrypoints/handler/BootcampHandlerImpl.java:70 | a missing or unparseable size is 10; a parseable one is its value |
| Handler.ParametersReadBack | src/main/java/com/onclass/bootcamp/infrastructure/entrypoints/handler/BootcampHandlerImpl.java:69-70 | any int page and size written in decimal are read exactly |
| Handler.ParseSortBy | src/main/java/com/onclass/bootcamp/infrastructure/entrypoints/handler/BootcampHandlerImpl.java:71-74 | CAPACITY_COUNT exactly for "capacitycount" in any letter case; NAME for anything else or nothing |
| Handler.ParseOrder | src/main/java/com/onclass/bootcamp/infrastructure/entrypoints/handler/BootcampHandlerImpl.java:75-78 | DESC exactly for "desc" in any letter case; ASC for anything else or nothing |
| Handler.ChoicesIgnoreCase | src/main/java/com/onclass/bootcamp/infrastructure/entrypoints/handler/BootcampHandlerImpl.java:71-78 | spellings that differ only in letter case choose the same sort and order |
| Handler.UpperCaseDescIsDescending | src/main/java/com/onclass/bootcamp/infrastructure/entrypoints/handler/BootcampHandlerImpl.java:75-78 | "DESC" selects descending order |
| Handler.HandleError | src/main/java/com/onclass/bootcamp/infrastructure/entrypoints/handler/BootcampHandlerImpl.java:131-158 | status 400 "Bad Request" exactly for a business failure, with one error carrying its message's code, text and field; every other failure is a 500 "Internal Server Error" with the generic error; both carry the message id and no data |
| Handler.CapacityNotFoundIsBadRequest | src/main/java/com/onclass/bootcamp/infrastructure/entrypoints/handler/BootcampHandlerImpl.java:132-144 | CAPACITY_NOT_FOUND is answered 400 although its error code says "404" |
| Handler.InfrastructureFailuresAreInternal | src/main/java/com/onclass/bootcamp/infrastructure/entrypoints/handler/BootcampHandlerImpl.java:147-157 | a gateway or store failure is a 500 whose error names no field |
| Handler.NotFound | src/main/java/com/onclass/bootcamp/infrastructure/entrypoints/handler/BootcampHandlerImpl.java:160-171 | a 404 "Not Found" whose code is "404", carrying the message id, no data, and one error with the given message and field |
| Handler.Created | src/main/java/com/onclass/bootcamp/infrastructure/entrypoints/handler/BootcampHandlerImpl.java:50-59 | a 201 "Created" whose code is "201", carrying the request's message id and the saved bootcamp, without errors |
| Handler.RequestOf | src/main/java/com/onclass/bootcamp/infrastructure/entrypoints/handler/BootcampHandlerImpl.java:68-79 | the page request is built exactly when page is not negative and size is between 1 and the page maximum; a negative page is reported before the size |
| Handler.GetById | src/main/java/com/onclass/bootcamp/infrastructure/entrypoints/handler/BootcampHandlerImpl.java:173-194 | an id that is not a long escapes the handler; an unknown id is answered 404 "Bootcamp not found" on "id"; a known one 200 "OK" with code "200", the message id, its DTO and no errors |
| Handler.RegisteredBootcampIsServed | src/main/java/com/onclass/bootcamp/infrastructure/entrypoints/handler/BootcampHandlerImpl.java:173-194 | after a registration, getById on the new id answers 200 with the bootcamp findById reads, which agrees with what save returned up to the order of its capacity ids |
| Handler.UnknownIdIsNotFound | src/main/java/com/onclass/bootcamp/infrastructure/entrypoints/handler/BootcampHandlerImpl.java:178-192 | an id no bootcamp has is answered 404 naming the field "id" |
| Handler.Create | src/main/java/com/onclass/bootcamp/infrastructure/entrypoints/handler/BootcampHandlerImpl.java:42-63 | an empty body answers nothing and leaves the store and its next id alone; a failed check answers handleError's reply and leaves them alone too; otherwise the bootcamp is saved, the next id advances on an insert, and the answer is 201, or the store's failure answered 500 |
| Handler.CapacityItem | src/main/java/com/onclass/bootcamp/infrastructure/entrypoints/handler/BootcampHandlerImpl.java:89-98 | a capacity item copies the capacity's id, name and description, holds exactly the technologies fetched for it, and techCount is their number |
| Handler.CapacityItems | src/main/java/com/onclass/bootcamp/infrastructure/entrypoints/handler/BootcampHandlerImpl.java:88-100 | one capacity item per fetched capacity |
| Handler.ListItem | src/main/java/com/onclass/bootcamp/infrastructure/entrypoints/handler/BootcampHandlerImpl.java:84-102 | a listed bootcamp copies its fields; its capacities are, in some order, exactly one item for each capacity fetched for it, so capacityCount is the number fetched; each item counts its technologies |
| Handler.ListItems | src/main/java/com/onclass/bootcamp/infrastructure/entrypoints/handler/BootcampHandlerImpl.java:83-104 | one list item per bootcamp of the page |
| Handler.PageResponseOf | src/main/java/com/onclass/bootcamp/infrastructure/entrypoints/handler/BootcampHandlerImpl.java:104-111 | the response copies page, size, totalElements and totalPages, and its content is exactly the multiset of the page's list items, one per bootcamp, in no promised order |
| Handler.HandleList | src/main/java/com/onclass/bootcamp/infrastructure/entrypoints/handler/BootcampHandlerImpl.java:65-118 | list as written: an out-of-range page or size escapes the handler; a query findPage refuses is answered through handleError with 500, which happens exactly when the wrapped offset is negative; otherwise 200 with the page response of the use case's page, which echoes page and size, has countAll as its total and its page count, and as many items as findPage returns rows |
| Handler.HandleListIntended | src/main/java/com/onclass/bootcamp/infrastructure/entrypoints/handler/BootcampHandlerImpl.java:65-118 | list over the corrected findPage: every valid request is answered with 200 and the page response of the intended page, with as many items as that page has rows |
| Handler.WrappedOffsetAnswersInternalError | src/main/java/com/onclass/bootcamp/infrastructure/entrypoints/handler/BootcampHandlerImpl.java:65-118 | page=21474837&size=100 is answered with 500 as written, where the intended listing answers 200 with no items |
| Handler.DefaultListing | src/main/java/com/onclass/bootcamp/infrastructure/entrypoints/handler/BootcampHandlerImpl.java:69-80 | with no parameters, page 0 of size 10 by name ascending is answered with 200 |
| Handler.ListingAsWrittenShowsNoCapacities | src/main/java/com/onclass/bootcamp/infrastructure/entrypoints/handler/BootcampHandlerImpl.java:83-101 | every item the listing as written answers with shows capacityCount 0 and no capacities, whatever its links |
| Handler.ListingCountsLinkedCapacities | src/main/java/com/onclass/bootcamp/infrastructure/entrypoints/handler/BootcampHandlerImpl.java:85-101 | over the corrected findPage, a listed bootcamp whose capacities all answer counts its distinct linked capacities, 0 exactly when it has no link rows |
| Handler.UnreadableTechnologyIsDropped | src/main/java/com/onclass/bootcamp/infrastructure/entrypoints/handler/BootcampHandlerImpl.java:90-98 | of n distinct technology ids with exactly one unreadable, the capacity shows n - 1 technologies |

## Left out

- Reactor scheduling: `flatMap` concurrency of 5, interleaving, and the eager assembly of the `Mono`s in `register`. Calls are modelled one after another. Results whose order the flux does not promise are multisets.
- Timing: the 5-second `Flux.timeout` is the boolean parameter `timedOut`; no clock is modelled.
- HTTP, JSON, WebClient, URI building, `ServerResponse`, the `date` field (`nowIso`) and logging. A remote call is a function from id to an optional answer, so a remote service is deterministic during one request.
- Spring wiring, the router and its OpenAPI documentation, the configuration classes, and the unused query ports.
- The Jakarta annotations on `BootcampDTO`: no validator is invoked on them, so only the use-case checks are modelled.
- What the web framework answers when a handler throws before its pipeline exists (`HandlerResult.Escaped`: an out-of-range page or size, a non-numeric id), and the answer to an empty create body (`HandlerResult.NoReply`).
- SQL collation: names are ordered by code point. The order among rows an ORDER BY ties (same name) is fixed but not the database's.
- Repository.ExistsByName: the derived query `existsByName` compares names under the column's collation, which may treat names differing only in case or trailing spaces as equal; the model compares names exactly, so it can call a name free that the database calls taken.
- Null elements inside `capacityIds`: the model's id lists hold integers only. In the code a list with a single null element passes the synchronous checks, and `Flux.fromIterable(distinct(ids))` then fails with a NullPointerException, answered with 500; a list with two nulls is refused as holding duplicates (INVALID_PARAMETERS).
- JavaText.Lower, JavaText.ParseInt, JavaText.ParseLong: `String.toLowerCase` is modelled for ASCII letters only, without locale rules. `Integer.parseInt` and `Long.valueOf` accept ASCII digits only, not the other Unicode digits Java accepts.
- Java `Long` ids and counts are unbounded integers. Where a width matters (the int offset cast, int parameters, `Long.valueOf`) it is modelled explicitly.
- Pages.TotalPages: the exact integer ceiling replaces `Math.ceil` on a `double`, so rounding of totals above 2^53 is not modelled. `Page.of` with size 0 (NaN) is excluded by `requires size >= 1`; every caller passes a valid page request.
- PersistenceAdapter.FindPage, PersistenceAdapter.FindPageAsWritten, UseCase.ListPage: they require a valid page request, which the `PageRequest` constructor guarantees for every instance.
- PersistenceAdapter.BootcampStore.Save: requires a name and a description, which the only caller has validated; the database schema is not part of the model.
- PersistenceAdapter.FindCapacityIdsByBootcampIds: link rows have no null columns in the model, so the null filter keeps every row.
- Link rows are appended in capacity-list order, one possible order of the concurrent writes. `findById` and `findAll` read them back without ORDER BY, so the model reads them in table order, and its read-back lemmas (`PersistenceAdapter.CapacityIdsOfFresh`, `PersistenceAdapter.InsertThenFindById`, `UseCase.RegisterScenario`, `Handler.RegisteredBootcampIsServed`) promise the capacity ids only as a multiset. Only the listing's link query sorts by capacity id.
- Saving an existing bootcamp again adds its link rows again, as the code does; the model does not remove old links.
- CapacityAdapter.ToIdNameOnly: the null branch cannot be reached from `fetchByIds`, because `map(APIResponse::getData)` fails on a null payload first; that failure is a dropped call.
- No atomicity: the bootcamp row and its link rows are separate writes, and the model does not describe a failure between them.
- MapStruct's null handling of a null source object: mapper inputs are never null here.
- The repository's test class drives a different use case than the one modelled, so it is not used.

## Findings

| source | as written | input that shows it | evidently intended | confidence | as-written member | corrected member |
|---|---|---|---|---|---|---|
| src/main/java/com/onclass/bootcamp/infrastructure/adapters/persistenceadapter/BootcampPersistenceAdapter.java:38 | `(int) page.offset()` narrows the long offset to an int, which wraps once page * size passes Integer.MAX_VALUE | PageRequest(21474837, 100): the offset 2147483700 wraps to a negative number and the query is refused (`OffsetCastRefusesPage`); PageRequest(42949673, 100): it wraps to 4 and rows of the first page come back (`OffsetCastReturnsWrongRows`); GET /bootcamps?page=21474837&size=100 is answered with 500 (`Handler.WrappedOffsetAnswersInternalError`) | the offset is page * size as computed in 64 bits, so a page beyond the last is empty and is answered with 200 (`Handler.HandleListIntended`) | medium; only huge page numbers reach it; not executed | PersistenceAdapter.FindPageAsWritten | PersistenceAdapter.FindPage |
| src/main/java/com/onclass/bootcamp/infrastructure/adapters/persistenceadapter/BootcampPersistenceAdapter.java:50 | `entities.map(mapper::toModel)` builds bootcamps without capacityIds, since `toModel` maps only the five columns, so the handler fetches no capacities for any listed bootcamp | any bootcamp with at least one link row, listed on any page: it shows capacityCount 0 and no capacities (`ListingAsWrittenShowsNoCapacities`) | each listed bootcamp carries its linked capacity ids, as findById and findAll do, so its count reflects its links (the page can even be sorted by that count) | high; not executed | Handler.ListingAsWrittenShowsNoCapacities | Handler.ListingCountsLinkedCapacities |
