# Indexes, chains and streams of the bulletin board: a model in Dafny

This project models the parts of the bulletin board software whose state outlives a call, and proves what every run of
them keeps.

- **The dbz index** (`innbbsd/dbz.c`). An append-only hash index that holds file offsets only; the keys are in a text
  file beside it. `Words`, `Crc`, `CaseMap`, `Decimal` and `DirFile` model its machine words (tags, bias, byte orders),
  its hash, its case mapping and its configuration file. `Opening` puts them together into the parameters of an index.
  `Index` says what an index means: the probe path of a key, fetching and storing along it, and the log of stores that
  explains every occupied place. `Runs` proves that over whole runs the index is a map that keeps the first value, and
  `Limits` where that ends.
  `Dbz` is the program itself, a class with the statics of `dbz.c` as fields: elided seeks, a remembered search, the
  in-core first table with or without write-through, syncing, closing and reopening. Every method is proved against
  the functions of `Index`. `Sessions` runs the class and proves the answers of any session. `Primes` models the choice
  of a table size.
- **The news history** (`innbbsd/his.c`, `innbbsd/dbztool.c`). `HistoryLog` describes a history file and its index as a
  list of posts; `History` is the class that appends, looks up, and rebuilds on expiry, and `Chronicle` runs it.
- **The random generator** (`mbbsd/random.c`). `Feedback` is the generator as a function of its state, `Seeding` the
  arithmetic of seeding, and `Random` the code with its cursors and header words.
- **The user hash** (`util/uhash_loader.c`). `UHash` builds the chains of the shared table, or repairs them in place.
- **The blog date list** (`blog/builddb.pl`). `BlogList` is the doubly linked list kept as flat keys of a store.

`dafny verify dfyconfig.toml` checks everything.

## Where the code and what is said of it differ

- `dbzfresh` takes any character as the field separator (`innbbsd/dbz.c:387`, `innbbsd/dbz.c:411`), and `fetch` compares
  it after case mapping (`innbbsd/dbz.c:986-991`). The index is a map of first stores if and only if the separator fits
  the case map: no letter under `=`, neither a letter nor `@` under `C`, anything without case mapping
  (`Limits.SeparatorsExactly`). A capital loses the id before it, `@` loses `<POSTMASTER`, and a small letter lets an id
  be found inside a longer one that hashes alike (`Limits.CapitalLoses`, `Limits.AtLoses`, `Limits.LetterConfuses`).
- `fetch` gives up at the first offset from which it cannot read a whole key (`innbbsd/dbz.c:978-984`). The right entry
  may lie behind it. `Index.FetchExactly` gives the exact condition; it always holds when offsets never decrease from
  store to store, as in a file that only grows, and `Limits.BackwardOffsetsFail` is an input on which it does not.
- `dbzsize(1)` is 1, because `isprime(1)` is true (`innbbsd/dbz.c:515-542`); `dbzfresh` then refuses that size.
- The hash table is filled from `POLY >> j` (`innbbsd/dbz.c:1671-1685`), so the hash is not the textbook CRC of its
  comment. It still forgets nothing of its sum: `Crc.StepUndone`.
- `dbzfresh` looks at the low 32 bits of its tag mask only when it chooses between the default, no tags and the mask
  (`innbbsd/dbz.c:432`). It takes the masks -1, -2, -4, ..., -2^31, whose ones leave no room for an enable bit; with
  these, and no others, offsets are lost, unless the table has at least 2^31 places, so that every tag is 0
  (`Limits.GaplessLoses`). `Limits.AnswersExactly` gives the exact condition on separator, case map, mask and size.
- A stored -1 without tags would look vacant (`Words.PackVacant`). Offsets are never negative.
- A case map of one blank is written but not read back (`DirFile.ConfRoundTrip`). No database is made with one.
- The comment of `__initstate_r` says that the old state is saved first (`mbbsd/random.c:241-243`); the code does not.
  `Random.LeftAfter` says exactly when the array left behind still stands for its generator: after whole rounds of draws.
- Of the three 32-bit seeds that are multiples of 2147483647 only 0 is replaced (`mbbsd/random.c:193-195`); the other
  two fill all words after the first with zeros before the warm-up (`Seeding.ZeroWords`).
- `userec_add_to_uhash` compares 11 of the 12 characters of a userid (`util/uhash_loader.c:152-153`), and links a record
  without unlinking it elsewhere. `UHash.Table.Add` says exactly when the chains stay in order.
- `HISmaint` looks into its buffer even if it could not read a line (`innbbsd/his.c:127-131`). What it finds there makes
  no difference: an empty history stays empty (`History.History.HISmaint`).
- The flag of a month shares the keys of the dates (`blog/builddb.pl:169`). For a year of six digits or more it is the
  mark of another date, which is then never linked (`BlogList.MonthFlags`).
- In the delete branch of `builddata` both tests are on `prev` (`blog/builddb.pl:132-141`). Deleting the last date
  leaves a key for a date with an empty name, which nothing reads; the list stays right.

## Model

| member | source | states |
|---|---|---|
| Sessions.Session | innbbsd/dbz.c:937-1108 | Any sequence of appends, stores, fetches (of ids of any length), syncs and closings with reopening (in core or not, written through or not) on a fresh database, with each offset stored after its text and no lower than those before: every fetch answers as the index does, and, when the tags of its keys lose nothing and the separator fits the case map, exactly as a plain map that keeps the first offset stored per id, up to case mapping |
| Sessions.ReopenCall | innbbsd/dbz.c:652-884 | Closing and reopening, in either mode, changes neither the entries, nor the configuration, nor the parameters of the search |
| Sessions.FreshSession | innbbsd/dbz.c:383-484 | A database made by dbzfresh is one a session can start from, for every size and case map that dbzfresh accepts, every separator and every tag mask; the tags of its keys lose nothing if and only if the mask is none of -1, -2, -4, ..., -2^31 or the table has at least 2^31 places |
| Runs.FirstStoreWins | innbbsd/dbz.c:937-1108 | After any legal run, when the tags of keys lose nothing and the separator fits the case map, fetching an id of any length with its NUL finds exactly the offset of the first store of an id that the case map does not tell apart from it, or nothing if there was none |
| Runs.VariantFinds | innbbsd/dbz.c:1864-1865 | Under = any case variant of a stored id is found after any legal run, at the offset first stored for a variant of it |
| Runs.LongMissed | innbbsd/dbz.c:959-991 | Then an id of 254 characters or more, which cannot be stored, is not found |
| Runs.SlotsStay | innbbsd/dbz.c:1064-1108 | No occupied place is ever changed or freed by what comes later in any run |
| Runs.RunSane | innbbsd/dbz.c:937-1108 | Every legal run keeps: each entry behind places filled before it, its text in the base file, offsets that never decrease, and agreement with the reference map |
| Runs.MatchIsEqual | innbbsd/dbz.c:966-998 | When the separator fits the case map, the comparison in fetch accepts the text at the offset of an entry if and only if the entry was stored under the same mapped key: prefixes and longer ids never match |
| Index.SearchBound | innbbsd/dbz.c:1425-1503 | With words in T tables at most, a search meets a vacant place within MAXRUN * T + 1 probes |
| Index.StoreBuilt | innbbsd/dbz.c:1064-1108 | A store goes to a vacant place, changes no other, and keeps every entry behind places that were filled earlier |
| Index.FetchExactly | innbbsd/dbz.c:964-1004 | fetch yields the first offset stored for the key if and only if no value on the way there lies too near the end of the base file to be read; if none was stored it yields nothing |
| Index.FetchFirst | innbbsd/dbz.c:972-998 | When offsets never decrease from store to store, that early exit never fires and the first offset is found |
| Limits.AnswersExactly | innbbsd/dbz.c:383-484 | For every database that dbzfresh makes: every fetch after every legal run answers right if and only if the separator fits the case map and the tag mask the size of the table |
| Limits.SeparatorsExactly | innbbsd/dbz.c:966-998 | When the tags of keys lose nothing, every fetch after every legal run answers right if and only if the separator fits the case map: any separator without case mapping, no letter under =, and neither a letter nor @ under C |
| Limits.SeparatorsOfConf | innbbsd/dbz.c:753-760 | The same for what dbminit sets up from any configuration with sound tag masks, or without enable bits and with a table so large that no key has a tag |
| Limits.CapitalLoses | innbbsd/dbz.c:986-998 | A capital as the separator under = or C: a stored id is not found, because the separator behind it is lower-cased with the text |
| Limits.AtLoses | innbbsd/dbz.c:986-998 | The separator @ under C: the stored id <POSTMASTER is not found, because it is lower-cased in the text but not in the key |
| Limits.LetterConfuses | innbbsd/dbz.c:986-998 | A small letter as the separator under = or C: an id never stored is found, in a longer one that goes on with the capital and hashes alike |
| Limits.BackwardOffsetsFail | innbbsd/dbz.c:978-984 | Two ids with the same hash whose offsets are stored in the order opposite to that of the file: the second is not found |
| Limits.BackwardInHistory | innbbsd/dbz.c:978-984 | This happens in every configuration without tags and with a tab as the separator, such as that of the news history |
| Limits.GaplessLoses | innbbsd/dbz.c:423-450 | With a tag mask of -1, -2, -4, ..., -2^31 and a table of fewer than 2^31 places: a legal run of one store, of an id with the largest hash at offset 0, after which the id is not found there |
| Dbz.NextOnPath | innbbsd/dbz.c:1442-1450 | Going to the next location keeps a searcher on the path (h + k) mod tsize + (k / MAXRUN) * tsize, table changes included |
| Dbz.SearchRound | innbbsd/dbz.c:1437-1502 | One round of search() meets a vacant place, a value to return, or an entry with another tag, and the last brings it nearer to the end of its path |
| Dbz.WalkOn | innbbsd/dbz.c:1100-1102 | Repeated searches from a start or a resumed search end exactly at the vacant place a fresh search would find |
| Dbz.FetchRound | innbbsd/dbz.c:972-1003 | One round of the loop in fetch() gives the answer of the whole fetch or leaves the rest of it to do |
| Dbz.Database.ReadPag | innbbsd/dbz.c:1456-1481 | A read with its seek elided returns the word at the wanted place, also after reads past the end of the file |
| Dbz.Database.Start | innbbsd/dbz.c:1397-1420 | A fresh search starts at the head of the key's path; a remembered one for the same hash is taken up at its vacant place |
| Dbz.Database.Search | innbbsd/dbz.c:1425-1503 | Stops at the next place on the path that is vacant or holds a value with the searcher's tag or none; everything before has another tag |
| Dbz.Database.Set | innbbsd/dbz.c:1524-1579 | Puts the packed value in the vacant place and nowhere else, in core or in the file, and keeps the two in step when written through |
| Dbz.Database.Fetch | innbbsd/dbz.c:936-1005 | Returns what the index says for the key, and remembers the search exactly when it ended at a vacant place |
| Dbz.Database.Store | innbbsd/dbz.c:1064-1108 | Succeeds if and only if the database is open and writable, the key short enough and the value storable; then the entries are those of a fresh search and store, even when it resumes a missed fetch |
| Dbz.Database.DbzFetch | innbbsd/dbz.c:905-930 | fetch of the mapped key, of which the first 255 characters count |
| Dbz.MappedKeyIs | innbbsd/dbz.c:916-928 | A key of at most 255 characters is mapped as a whole, of a longer one the first 255 |
| Dbz.Database.DbzStore | innbbsd/dbz.c:1037-1059 | store of the mapped key; a key of 255 characters or more is refused and changes nothing, and a store counts one use more for today |
| Dbz.Database.GetCore | innbbsd/dbz.c:1319-1373 | A copy of the first table, vacant beyond the end of the file |
| Dbz.Database.PutCore | innbbsd/dbz.c:1379-1391 | The first table of the file becomes the in-core one; the overflow tables, and what the database holds, stay |
| Dbz.Database.DbzSync | innbbsd/dbz.c:858-884 | Afterwards core and file agree on the first table; the overflow tables are untouched, and the configuration is written if anything was |
| Dbz.Database.DbmClose | innbbsd/dbz.c:807-853 | The file alone then holds every entry |
| Dbz.Database.DbmInit | innbbsd/dbz.c:652-782 | Opens what the .dir file describes, with or without an in-core table, keeping every entry |
| Dbz.Database.DbzFresh | innbbsd/dbz.c:383-484 | Succeeds exactly for a closed database, a size of 0 or at least 2 and a known case map; the database is then empty its case map, size and separator are those asked for, and its configuration can be read back |
| Dbz.Database.FreshConf | innbbsd/dbz.c:404-450 | The configuration asked for, or none exactly for a bad size or case map |
| Dbz.FreshFields | innbbsd/dbz.c:383-450 | Its fields in numbers: 120011 places for a size of 0, case map 0 for NUL, 0 and B, = for = and b, C for C and ?, the separator as a signed character, and eleven usage counts of 0 |
| Dbz.SetInCore | innbbsd/dbz.c:1547-1556 | Setting a vacant place of the in-core table adds just that entry |
| Dbz.SetInFile | innbbsd/dbz.c:1557-1578 | Setting a vacant place of the file, even beyond its end, adds just that entry |
| Dbz.CopyRepresents | innbbsd/dbz.c:1349-1373 | Taking the first table into core changes nothing that a probe sees |
| Words.PackSeen | innbbsd/dbz.c:1483-1500 | The word stored for a value gives back that value under its own tag, and under another tag that value or a mismatch, never a wrong value |
| Words.PackVacant | innbbsd/dbz.c:1524-1545 | The stored word looks vacant for no storable value but -1 |
| Words.DefaultWord | innbbsd/dbz.c:1524-1545 | Under the default masks the word written is the offset with seven bits of the tag in bits 24 to 30 and the enable bit 31 set, plus one |
| Words.DefaultUntagged | innbbsd/dbz.c:1524-1545 | An offset with any of bits 24 to 31 set is written as itself plus one, and one with bit 31 set cannot be stored |
| Words.RecoversExactly | innbbsd/dbz.c:146-150 | Every storable value is found again under every tag if and only if the enable bits lie apart from the tag bits and tag bits come with an enable bit |
| Words.NotRecovered | innbbsd/dbz.c:146-150 | For any other masks, a tag under which the value 0 is lost or changed |
| Words.FreshSound | innbbsd/dbz.c:440-449 | A nonzero tag mask, with the zeros just above its ones as enable bits, is sound if and only if there are such zeros, as there are below the sign bit |
| Words.StripZeros | innbbsd/dbz.c:441-446 | The shifted mask is odd, shifting it back gives the mask, and zeros above ones stay what they are, for negative masks too |
| Words.LongRoundTrip | innbbsd/dbz.c:116-128 | A long and its 64-bit pattern determine each other |
| Words.MoveBytes | innbbsd/dbz.c:1623-1641 | Byte map1[i] of the input becomes byte map2[i] of the output |
| Words.MapBytes | innbbsd/dbz.c:1623-1641 | bytemap on a word: byte map1[i] of it in memory is byte map2[i] of the result |
| Words.ForeignBytes | innbbsd/dbz.c:318-325 | What MAPOUT leaves in memory are the bytes that a machine with the byte map of the file would write for the same word, and MAPIN takes them for that word |
| Words.LittleAndBig | innbbsd/dbz.c:1623-1641 | The word 0102030405060708 of a little-endian machine is 0807060504030201 in the order of a big-endian one |
| Words.ByteMapInverse | innbbsd/dbz.c:1623-1641 | Mapping from one byte order to another and back gives the word back, and only 0 maps to 0 |
| Opening.SchemeLawful | innbbsd/dbz.c:753-760 | What dbminit sets up from a configuration sees a word as vacant exactly when it is 0, and loses no offset of any key if and only if the tag masks are sound, or there are no enable bits and no key has a tag |
| Opening.FreshTags | innbbsd/dbz.c:432-450 | For every long: the masks of a new database are the default ones, none, or tag bits at the ones of the mask with enable bits just above; they are sound if and only if the mask is none of -1, -2, -4, ..., -2^31 |
| Opening.FreshMasksAre | innbbsd/dbz.c:432-450 | By the low 32 bits of the mask: 0 gives seven tag bits from 24 on and the enable bit 31, 1 gives no tags, and anything else its own bits with those just above its runs of ones |
| Opening.GaplessTagFree | innbbsd/dbz.c:440-450 | Under a mask of -1, -2, -4, ..., -2^31 no key has a tag if and only if the table has at least 2^31 places |
| Opening.NoTagsOkay | innbbsd/dbz.c:1508-1519 | Without tags every offset can be stored |
| DirFile.PutConf | innbbsd/dbz.c:1288-1315 | The text of the configuration replaces the beginning of the file, which is not truncated: every character behind it stays |
| DirFile.GetConf | innbbsd/dbz.c:1166-1244 | Reads a configuration, or fails, exactly as the grammar of the .dir file says; an empty file gives 120011 places, a tab, case map C, tags 127 and 128 shifted by 24, and the byte order of the machine |
| DirFile.ParseRefuses | innbbsd/dbz.c:1194-1240 | No file is accepted without dbz and the version 3 at its start and 8 as the size of a value |
| DirFile.ConfLines | innbbsd/dbz.c:1288-1315 | The text that is written, field by field |
| Decimal.DigitsInOrder | innbbsd/dbz.c:1288-1315 | Decimal text: higher digits before lower ones, and the sign before them |
| DirFile.Reader.GetNo | innbbsd/dbz.c:1249-1283 | A blank-separated number; an error for a missing, non-numeric or unterminated one |
| DirFile.ConfRoundTrip | innbbsd/dbz.c:1166-1315 | A written configuration, whatever follows it, reads back as itself if and only if its case map is not a blank |
| DirFile.PutGetConf | innbbsd/dbz.c:1288-1315 | It reads back also when written over a longer text |
| Decimal.AtolText | innbbsd/dbz.c:1282 | atol of a printed number followed by no digit is that number |
| Crc.HashLoop | innbbsd/dbz.c:1687-1702 | The loop over the characters computes the hash of the whole key, which is never negative |
| Crc.EntryWritten | innbbsd/dbz.c:1671-1685 | Every entry of the computed table is the closed form used in the proofs |
| Crc.StepUndone | innbbsd/dbz.c:1697-1699 | A step of the hash can be undone: it forgets nothing of the sum |
| Crc.SumInjective | innbbsd/dbz.c:1687-1702 | From different sums the same text leads to different sums |
| Crc.OneCharacterSeen | innbbsd/dbz.c:1687-1702 | Two keys that differ in a single character never collide |
| Crc.Collide | innbbsd/dbz.c:1687-1702 | Any two texts can be continued by five characters each to texts that hash alike, whatever follows |
| Crc.DigitsHash | innbbsd/dbz.c:1687-1702 | A key of ten digits whose hash is the largest there is |
| CaseMap.CaseEqual | innbbsd/dbz.c:1757-1796 | Equal exactly up to the case of ASCII letters |
| CaseMap.FindCiPoint | innbbsd/dbz.c:1843-1870 | The place from which the Message-ID is case-insensitive, or NULL for nowhere: the start under =, and what SameMailbox and MapSame pin down under C |
| CaseMap.MapCaseCopy | innbbsd/dbz.c:1801-1829 | The copy is lower case from that place on and equal to the source before it |
| CaseMap.AllMapped | innbbsd/dbz.c:1864-1865 | Under = the whole id is mapped to lower case |
| CaseMap.NothingMapped | innbbsd/dbz.c:1853-1870 | Without a case map nothing is mapped, nor under C in an id without an @ |
| CaseMap.MapSame | innbbsd/dbz.c:1798-1870 | Two ids map alike if and only if they name the same: equal up to case under =; under C, with an @ in both, what SameMailbox says; and otherwise equal |
| CaseMap.LowLetters | innbbsd/dbz.c:1722-1750 | The capitals become the 26 small letters, in order |
| CaseMap.LowOthers | innbbsd/dbz.c:1722-1750 | Every other character stays |
| CaseMap.MapCaseIdempotent | innbbsd/dbz.c:1798-1870 | Mapping twice is mapping once, for every case map |
| CaseMap.SameMailbox | innbbsd/dbz.c:1831-1870 | Under C, ids with an @ map alike if and only if their domains agree up to case and their local parts are equal, or both are postmaster up to case behind the same first character up to case |
| Primes.Isprime | innbbsd/dbz.c:515-542 | True for 1 and for exactly the primes above 37: the doubled, rounded-down root misses no divisor |
| Primes.TrialEnough | innbbsd/dbz.c:531-541 | Trying the odd numbers from 37 below twice the halved approximation is enough |
| Primes.PrimeBeyond | innbbsd/dbz.c:503-504 | There is a prime beyond every number, so the search for a size ends |
| Primes.DbzSize | innbbsd/dbz.c:489-508 | For n >= 2 the least prime above 37 that is at least 3 * (n / 2), and 3n <= 2r + 1; the default for n <= 0, and 1 for n = 1 |
| HistoryLog.RunFindsAll | innbbsd/dbztool.c:53-65 | After any run of storeDB calls with clean lines and Message-IDs that are equal or none starts another, a lookup of any of them gives the date and paths of its first call |
| HistoryLog.RunOrderly | innbbsd/dbztool.c:53-65 | Every such run leaves in the file exactly the first line for each Message-ID, in order, each indexed at its offset |
| HistoryLog.FilesForPost | innbbsd/his.c:291-348 | In an orderly history a lookup yields the text of the post, or nothing for a Message-ID apart from all that are stored |
| HistoryLog.AppendOrderly | innbbsd/his.c:441-476 | Appending the line of a new Message-ID and storing its offset keeps the history orderly |
| HistoryLog.FirstDropped | innbbsd/his.c:127-145 | Leaving out the first line, which the age test consumed, keeps the same posts: the keep rule would have dropped it |
| HistoryLog.RebuildStep | innbbsd/his.c:145-161 | Line by line, what fgets reads is the next post, and what has been kept never clashes with it |
| HistoryLog.LineAt | innbbsd/his.c:452-455 | The history file has the line of post i at the total length of the lines before it |
| HistoryLog.DateWritten | innbbsd/his.c:453-455 | atol on a written line gives the date back |
| HistoryLog.TextParts | innbbsd/his.c:453-455 | The text of a line up to its first tab reads as the date, and behind that tab it is the paths |
| HistoryLog.ExpiredExactly | innbbsd/his.c:112-170 | Expiry with its arithmetic: if the date of the first line + 86400 * Expiredays * 2 lies before now, exactly the posts with date + 99600 * Expiredays >= now stay, in order; otherwise all |
| History.History.HISwrite | innbbsd/his.c:441-476 | The line of key, tab, date, tab and paths is appended to the file and indexed if its key is short enough; a new Message-ID with a clean line joins the posts and keeps everything in order |
| History.History.MyHISwrite | innbbsd/his.c:398-435 | A key that is found is not written again and nothing changes; otherwise the line is appended, and indexed if its key is short enough; in an orderly history a clean line with a new Message-ID is always written and joins the posts |
| History.History.HISfilesfor | innbbsd/his.c:291-348 | The rest of the line that the index leads to |
| History.History.DBfetch | innbbsd/dbztool.c:16-32 | The text that the index leads to for the truncated key: in an orderly history the text of the post of a stored Message-ID, and nothing for one apart from all stored ones |
| History.History.DBstore | innbbsd/dbztool.c:34-51 | One line more, indexed when the Message-ID is short enough for dbz; 0 exactly then |
| History.History.StoreDB | innbbsd/dbztool.c:53-65 | Nothing changes if a lookup finds a text; otherwise one line more, indexed if its key is short enough |
| History.History.StoreDBOrderly | innbbsd/dbztool.c:53-65 | In an orderly history storeDB is the step of the model runs: a new Message-ID is added, a stored one changes nothing, the order is kept, and the result is 0 |
| History.History.Serve | innbbsd/dbztool.c:53-65 | Any clean run of storeDB calls on an empty history leads to the files, index and posts of the model run of RunFindsAll: in order, the first post of each Message-ID, whose text has its time before the first tab and its paths behind it |
| Chronicle.Session | innbbsd/his.c:112-170 | Any legal run of storeDB, DBfetch, closing and reopening, and expiry on an empty history: the posts are the fold of those calls, and every expiry keeps exactly the posts young enough if the first is old enough, and every lookup gives the text of the post then stored, also for a Message-ID that expired and was stored again |
| Chronicle.StoredThenAsked | innbbsd/dbztool.c:16-65 | storeDB of a new clean Message-ID and then DBfetch of it: the text found has the time before its first tab and the paths behind it |
| Chronicle.CleanLegal | innbbsd/his.c:112-170 | Clean lines, and Message-IDs that are equal or apart, make a run legal |
| Chronicle.StoredAgain | innbbsd/his.c:145-161 | A Message-ID that is no longer there, because it expired, is stored anew and found with its new text |
| HistoryLog.AskableFits | innbbsd/his.c:291-348 | In an orderly history every line that a lookup leads to can be read in one go |
| History.History.HISclose | innbbsd/his.c:233-252 | Closing leaves the index complete in its file, with the .dir file up to date |
| History.History.HISsetup | innbbsd/his.c:176-211 | Opening again gives the same index |
| History.History.MakeDbz | innbbsd/his.c:34-42 | A new, empty, closed history without tags or case mapping |
| History.History.Rebuild | innbbsd/his.c:145-161 | The loop copies exactly the posts that the keep rule keeps, in order, each found through the new index |
| History.History.HISmaint | innbbsd/his.c:112-170 | If the date of the first line + 86400 * Expiredays * 2 lies before now, the history becomes exactly its posts with date + 99600 * Expiredays >= now, in order and all indexed; otherwise it stays; an empty history stays empty whatever the unread buffer holds |
| History.History.FGets | innbbsd/his.c:145 | The line at the reading position, with its newline, cut to 4095 characters |
| Random.Interleave | mbbsd/random.c:307-415 | Over arrays that are pairwise different, any interleaving of draws and setstate switches gives from each array the numbers it gives when used alone |
| Random.TwoStreams | mbbsd/random.c:244-415 | Two arrays of any sizes initialised one after the other and then used in any order each give the stream of their own seed |
| Random.RandomData.Draw | mbbsd/random.c:366-415 | The number and the next state of the current generator; the header word stays |
| Random.RandomData.SetState | mbbsd/random.c:307-352 | The old array then stands for the generator that was current, the new one becomes current; on the current array nothing changes; it fails exactly on a header with a negative type |
| Random.RandomData.Srandom | mbbsd/random.c:174-230 | The state of the seed, or of 1 for the seed 0: a word of the congruential generator, or what 10 * deg draws make of the ring of 16807-fold words that starts with it, with the rear cursor back at 0 |
| Random.RandomData.InitState | mbbsd/random.c:244-296 | Fails exactly below 8 bytes; otherwise the largest type that fits (0, 1, 2, 3 and 4 from 8, 32, 64, 128 and 256 bytes on), seeded, and a header word equal to the type |
| Random.RandomData.FillWords | mbbsd/random.c:201-214 | Each word is 16807 times the one before, modulo 2147483647 |
| Random.HeaderUnpacked | mbbsd/random.c:322-342 | Type and rear cursor come back out of the header word |
| Random.LeftAfter | mbbsd/random.c:263-291 | A seeded array that gave n numbers and is then left by initstate still stands for its generator always for type 0, and otherwise if and only if n is a multiple of the degree; after one number it does not |
| Random.LeaveByInit | mbbsd/random.c:244-415 | Seeding an array, drawing from it and seeding another one leaves it with its generator under exactly that condition |
| Random.CursorsOn | mbbsd/random.c:395-407 | Without testing the rear cursor when the front one wraps, both stay in bounds and their distance stays the same |
| Random.RingDraw | mbbsd/random.c:388-407 | Adding through the two cursors is the step of the ring |
| Feedback.RefinesRecurrence | mbbsd/random.c:388-407 | The ring refines x[m] = x[m - deg] + x[m - sep] in 32 bits: draw n gives number n + deg |
| Feedback.Trinomials | mbbsd/random.c:95-130 | The recurrence of each type in numbers: x[m] = x[m - 7] + x[m - 3], x[m - 15] + x[m - 1], x[m - 31] + x[m - 3] and x[m - 63] + x[m - 1] |
| Feedback.DrawNumbers | mbbsd/random.c:378-393 | The number drawn is 1103515245 * word + 12345 modulo 2^31, or the upper 31 bits of the 32-bit sum |
| Feedback.RearAfter | mbbsd/random.c:395-407 | After n calls the rear cursor is n places on, modulo the degree |
| Feedback.NextInjective | mbbsd/random.c:388-407 | No two ring states lead to the same one |
| Feedback.LcgInjective | mbbsd/random.c:378-384 | Nor do two 31-bit words of the linear congruential generator |
| Feedback.StreamsIndependent | mbbsd/random.c:307-415 | In any interleaving each state gives its own stream and ends where using it alone would leave it |
| Seeding.SchrageExact | mbbsd/random.c:206-212 | Each step gives 16807 * w mod 2147483647 with every intermediate value in 32 bits, for unsigned seeds and for seeds read as negative |
| Seeding.ZeroWords | mbbsd/random.c:193-214 | A word after the first is 0 if and only if the seed is a multiple of 2147483647 |
| Seeding.SeededIs | mbbsd/random.c:193-223 | The state of a seed is that of the words that follow from it, after 10 * deg draws; the seed 0 counts as 1 |
| Seeding.SeedWordsAre | mbbsd/random.c:193-214 | The first word is the seed in 32 bits, and each other one 16807 times the one before, modulo 2147483647 |
| Seeding.SeedsDiffer | mbbsd/random.c:174-230 | Two different nonzero seeds never give the same state, for any type |
| Seeding.WarmUpReturns | mbbsd/random.c:216-223 | The 10 * deg warm-up calls bring the rear cursor back to where it started |
| UHash.Table.FillUHash | util/uhash_loader.c:96-139 | From any table whose chains all end, fill_uhash(1) leaves every loaded record number in the chain of its own hash, once and in no other, and every chain ending with -1, if and only if each record fits what the check leaves of that table: its shared userid hashes as it does, or no chain left holds its number and the userid is replaced. Otherwise the chains are out of order. fill_uhash(0) always does, each chain in increasing order. All users are loaded, or as many as the table has room for |
| UHash.Table.CheckHash | util/uhash_loader.c:75-95 | The chain afterwards ends with -1 and holds exactly those of its old nodes that hash there, in order; no head or link of another chain is touched, and all chains still end |
| UHash.Table.Add | util/uhash_loader.c:145-173 | The chains stay in order with n in the chain of its record if and only if the shared userid hashes as the record does, or no chain holds n and the userid is replaced |
| UHash.Table.AddAnywhere | util/uhash_loader.c:145-173 | The same on chains that end but may be out of order: the arrays and userids afterwards |
| UHash.Table.LinkId | util/uhash_loader.c:163-172 | The number is linked once at the end of the chain, unless it is there |
| UHash.Table.CopyId | util/uhash_loader.c:152-162 | The shared userid is replaced unless, on the fly, its first 11 characters agree |
| UHash.SameIdCompares | util/uhash_loader.c:152-153 | The comparison of userids: they agree in their first 11 characters, or end together before |
| UHash.Table.CheckAll | util/uhash_loader.c:101-105 | Checking every chain in turn puts all of them in order: chain h keeps, in the order of the old links, the nodes that hash to h up to the first that an earlier chain has kept. A table in order is left as it is |
| UHash.SameKept | util/uhash_loader.c:75-95 | What checkhash finds on a chain that earlier checks have rewritten is what the old links show before the first node an earlier chain has kept |
| UHash.PathDistinct | util/uhash_loader.c:78 | A chain that ends visits nothing twice |
| UHash.SkipEnds | util/uhash_loader.c:87 | Taking a node out of one chain leaves every chain with an end, even those that share it |
| UHash.WalkRemove | util/uhash_loader.c:82-90 | Taking a wrong node out drops just that node from the chain |
| UHash.WalkMend | util/uhash_loader.c:80 | A link out of range becomes -1 and the nodes before it stay |
| UHash.StandsOnce | util/uhash_loader.c:75-95 | In chains that are in order a node stands once, in the chain of its own userid |
| UHash.Disagreeing | util/uhash_loader.c:163-172 | Linking a number that the chain of its old userid still holds leaves the chains out of order, whatever they are taken to be |
| UHash.Misplaced | util/uhash_loader.c:152-172 | So does linking one whose shared userid hashes elsewhere and was not replaced |
| UHash.FirstSpoils | util/uhash_loader.c:145-173 | The first record that does not fit leaves a loaded number in a chain where it does not belong |
| UHash.SpoiledStays | util/uhash_loader.c:145-173 | No record added later puts that right |
| UHash.LinkEnds | util/uhash_loader.c:163-172 | Linking a number, even one that another chain holds, leaves every chain with its end |
| UHash.AddedFresh | util/uhash_loader.c:124-128 | Built fresh, each chain has its own record numbers in increasing order |
| UHash.AddedNothing | util/uhash_loader.c:163-169 | When every record is in its chain, adding them changes nothing |
| UHash.FilledPartition | util/uhash_loader.c:96-139 | Healthy chains to which every record was added hold each exactly once |
| BlogList.Replay | blog/builddb.pl:131-214 | Any run of entries and deletions on a fresh store, of dates with years of at most five digits, leaves a strictly increasing list of exactly the linked dates, and following next from head reads it off |
| BlogList.MonthFlags | blog/builddb.pl:162-169 | The flag of a month is a key of its own if and only if the year has at most five digits; otherwise it is the mark of another date |
| BlogList.Blog.Link | blog/builddb.pl:182-213 | Adds the date to the list, in its place |
| BlogList.Blog.Post | blog/builddb.pl:156-215 | An entry already linked is passed over without force; content only links nothing |
| BlogList.Blog.Delete | blog/builddb.pl:131-147 | Takes the date out of the list; the list stays as it is for a date not in it |
| BlogList.Blog.FindBefore | blog/builddb.pl:203-205 | The backward scan ends at the last date before the new one, at the head at the latest |
| BlogList.MutualInverses | blog/builddb.pl:182-213 | next and prev undo each other, join linked dates in increasing order, and are missing exactly at last and head |
| BlogList.SpellsOne | blog/builddb.pl:187-212 | The keys spell exactly one list: the one a walk from head finds |
| BlogList.LinkSpells | blog/builddb.pl:182-213 | Rewriting just the keys of the new date, its neighbours and the ends gives the longer list |
| BlogList.CutSpells | blog/builddb.pl:131-147 | Clearing the keys of a date and rewriting those of its neighbours and the ends gives the shorter list |

## Left out

- I/O errors, `aborted` searches, `latebase` and locking: files are sequences that never fail, and a file that is open
  can be read and written.
- `olddbz` databases, `dbzagain`, `dbzcancel`, `dbztagmask` and the `MMAP` and `OVERFLOW` variants.
- The probing of the machine's byte order (`mybytemap`): the byte order is a parameter of a database.
- The lazily filled table behind `TOLOW`: `CaseMap.Low` is what it ends up holding; characters above 127 map to
  themselves.
- Sizes of C integers where nothing depends on them: places in the `.pag` file are unbounded and counted in words; a
  history file is shorter than 2^63 bytes.
- `atol` on texts out of the range of a long.
- Changing `dbzwritethrough` while a database is open: stores made before the change may then never reach the file.
- Dbz.Database.Fetch: takes non-empty keys only; the code reads the byte before an empty one.
- Dbz.Database.DbzFetch: likewise.
- Dbz.Database.DbmInit: assumes that a configuration read from the file has a positive table size, a shift that is not
  negative and a byte map that is a permutation; the code does not look.
- History.History.HISfilesfor: assumes that the line can be read in one go; the code reads every further piece to the
  start of its buffer, so lines of 1023 bytes and more have no clear meaning.
- History.History.DBfetch: likewise, and `History.History.StoreDB`, which looks first.
- History.History.HISmaint: the time, the size of the new table and the unread buffer are parameters, and no files of an
  earlier, interrupted run are in the way.
- History.History.MyHISwrite: takes non-empty keys only, like the fetch it begins with.
- `mkhistory`, `gethisinfo`, `HISsetkey`, `HISslashify`: they read or copy, and add no state.
- Random.RandomData.SetState: expects an array that `initstate` or `setstate` left in order, or one whose header has a
  negative type.
- The library's own generator `unsafe_state` with its precomputed table, and the wrappers that return the old array.
- The hash of a userid is a parameter (FNV-1a without case, in the source); money and cooldown fields are not part of
  the model.
- Chains that never end: `checkhash` does not end on them either.
- Month flags, titles and contents, and the full-text index of `blog/builddb.pl`; dates whose month or day has more than
  two digits, or whose year has more than five.
- The command interfaces of `innbbsd`, and everything else in the repository.
