# The audit log of the Nextcloud MCP connector, verified

A Dafny model of the connector's hash-chained audit log, of the code around it that shares its
state, and of the codecs whose two directions have to invert each other.

**The log.** One table holds many chains: one per account, one of refused exchange attempts, and
the instance chain, which is the register of everything the log removed from itself. A row carries
the digest of its content and of its predecessor's digest. Four kinds of transaction change the
table: an append, a batch of the retention sweep, a batch of the upper bound, and the drop of an
account's chain. Every deletion leaves a marker (a tombstone) that names how many rows went and the
digest of the last of them, and the sweeps rewrite the tail of the register, so that it grows with
switches and chains and not with sweeps. A check walks every chain and reports its first broken
place.

**How it is modelled.** `Register`, `Log`, `Batches` and `Runs` describe each transaction as a
function from one state of the table (`Db`: its rows in key order and the counter that no deletion
lowers) to the next. A run is any list of transactions from an empty table on, with arbitrary
moments, cutoffs, batch sizes and account names, in any interleaving of any number of workers; a
crash is the end of a run, and since every prefix of a run is a run, what holds after every run
holds after every crash. `Store` is the imperative half: the class `AuditStore` with the loops of
the sweeps, of the consolidation and of the account check, each tied to those functions.
`Chains` and `Verify` hold the check, and `Tampering` what its clean answer proves about a store that
somebody replaced. `Conservation`,
`NumbersNeverReused` and `InstanceHistory` in `History`, and `RegisterStaysBounded` in
`RegisterBound`, are statements about all runs.

**Digests.** A digest is a free constructor over its input, `Genesis | Sha256(input)`: it is
injective and never the genesis value, which is the assumption the original makes of SHA-256. What
is hashed is not free but the actual canonical JSON text (RFC 8259, sections 5 to 7) with the
predecessor's digest behind it. A reader that knows nothing of the writer gives the columns back out
of that text (`Canonical.ListReadsBack`), so it means what the standard says and determines the row.

**The other modules.** `Retention` is the retention sweep while other workers write, `Refusals` the
braked writer of refused attempts, `Startup` the recording of the log's own switch, `Printing` the
cleaning rule for names a stranger wrote, `Entries` what the store makes of the entry a caller hands
over, `Cursor` the unpadded base64url cursor (RFC 4648, sections 3.2, 4 and 5), `Ids` the prefixed
resource ids, `Providers` what makes ids of search hits, and `Exclusion` the two ways to tell whether
a tag on a folder excludes an answer. `Basics`, `Names` and `Text` hold the small vocabulary they
share.

**Where the code falls short of a plain reading.** Each of these has an input that shows it and the
exact condition under which the code does what one would expect.

- `Printing.OnePassCanFail`: the cleaning rule is not a fixed point after one pass;
  `Printing.OnePassIsEnough` says exactly when it is, and `Printing.StoredNamePrintsAsItStands` that
  the two passes of the write path suffice.
- `Ids.BuiltIdsCanFail`: the encoders accept segments that do not read back;
  `Ids.BuiltIdsParseBack` says exactly which do.
- `Cursor.ManyHandlesOneState`: several texts are read as one state, of which the server writes one.
  `Cursor.OneCanonicalHandle` says, of every text that is read as a state, exactly when it is that
  one: when it is over the url-safe alphabet, without padding or white space, its unused bits are
  zero, and the JSON in it is the text this server writes. The JSON itself is a parameter.
- `Refusals.RateCanFail`: the rows of a reason can stand closer than a window apart;
  `Refusals.RefusalRate` says exactly when the rows tried do not: when no call of that reason found
  the clock before the start of its open window. `Refusals.StoredRate` carries that over to the rows
  in the store, exactly where no append failed. A clock that goes back elsewhere does no harm.
- `Tampering.DeletedRows`: the check does not notice every deletion, and this is exactly which: of
  each chain the beginning is left, and the register that is left still names every head that needs
  it. `Tampering.VanishedChainIsClean` is the chain of an account that is gone as a whole.

## Model

| member | source | states |
|---|---|---|
| Canonical.ListReadsBack | src/mcp_connector/audit/store.py:583-591 | an independent reader of JSON lists of nulls, decimal integers and texts gives back every list from its canonical text, and whatever follows it untouched |
| Canonical.EscapeIsShortest | src/mcp_connector/audit/store.py:583-591 | only the characters that have to be escaped are, by the short escape where there is one and otherwise by four hexadecimal digits without capitals |
| Canonical.EncodePrefixFree | src/mcp_connector/audit/store.py:583-591 | two canonical row texts followed by anything agree only when rows and followers agree: the form is injective and prefix-free, whatever quotes, backslashes, brackets or control characters a value holds |
| Canonical.QuotePrefixFree | src/mcp_connector/audit/store.py:583-591 | the same for one quoted text: no value can end its own string early |
| Rows.ColumnsInOrder | src/mcp_connector/audit/store.py:335-353 | the seventeen columns of a row stand in the order of the schema, each under its own name |
| Rows.DigestIsOverTheRow | src/mcp_connector/audit/store.py:713-726 | what is digested reads as the list of those columns, the number first, with the predecessor's digest right behind it |
| Rows.EntryRoundTrip | src/mcp_connector/audit/store.py:635-681 | the entry read back out of the seventeen columns is the entry whose columns were written, field by field; the cleaning and the parameter text in front of it are the rows of `Entries` |
| Entries.WrittenReadsBack | src/mcp_connector/audit/store.py:594-681 | a row of a call, whose names the recorder and the store have cleaned, reads back as what was written, its sorted parameter names among it, and writing that again changes nothing |
| Entries.WrittenColumns | src/mcp_connector/audit/store.py:635-659 | the actor is cleaned at 64 and the client name at 80 characters, and every other column is the one handed over |
| Entries.TextsReadBack | src/mcp_connector/audit/store.py:655-678 | the JSON text of a list of names reads back as that list, whatever signs a name holds |
| Entries.ParamsTextInjective | src/mcp_connector/audit/store.py:655 | the sorted JSON text of the parameter names says which they were, whatever signs a name holds |
| Entries.DigestNamesTheDraft | src/mcp_connector/audit/store.py:713-726 | one digest belongs to one number, one predecessor, one set of parameter names and one pair of cleaned names |
| Entries.UnknownActorPasses | src/mcp_connector/audit/store.py:614-632 | the fixed actor of markers and switch rows passes the cleaning unchanged |
| Rows.HashOfInjective | src/mcp_connector/audit/store.py:713-726 | one digest belongs to one number, one content and one predecessor |
| Chains.SameEndSameTail | src/mcp_connector/audit/store.py:909-946 | two whole and linked row sequences with the same last hash are one a suffix of the other |
| Chains.TamperEvident | src/mcp_connector/audit/store.py:909-946 | given a clean chain from genesis, a row sequence with the same last row checks clean exactly when it is that chain or a suffix of it whose missing front a marker explains: every edit, renumbering, reordering or interior removal is found |
| Chains.TamperEvidentTail | src/mcp_connector/audit/store.py:909-946 | the same for a chain whose front is already gone: a shorter clean copy is an explained suffix of it, a longer one continues it backwards |
| Chains.NoFork | src/mcp_connector/audit/store.py:713-726 | no two rows of a whole and linked chain share a predecessor hash |
| Chains.FirstFinding | src/mcp_connector/audit/store.py:909-946 | for every batch size the walk answers nothing exactly when the chain is clean, and otherwise the one first broken place, with every earlier row whole and linked and the right kind and numbers |
| Chains.FirstFindingUnique | src/mcp_connector/audit/store.py:921-946 | a broken chain has one first finding |
| Register.WriteMarkersKeeps | src/mcp_connector/audit/store.py:837-881 | consolidation changes nothing but markers of the instance chain: any selection that holds no such marker is the same before and after, so a switch row is never absorbed or moved |
| Register.WriteMarkersCounts | src/mcp_connector/audit/store.py:850-881 | per chain, the markers afterwards stand for what they stood for before plus what this batch removed |
| Register.WriteMarkersNewest | src/mcp_connector/audit/store.py:850-881 | the newest marker of a chain names the end this batch noted for it, at the moment of the batch, and for a chain the batch did not touch the same end and the same moment as before |
| Register.MarkersAfter | src/mcp_connector/audit/store.py:837-881 | the markers of a chain are the ones in front of the absorbed run, unchanged, and then at most one new one, which stands for all absorbed ones and the batch and has the moment of the batch, or for an untouched chain the end and the moment of its youngest absorbed marker |
| Log.WriteMarkersSound | src/mcp_connector/audit/store.py:816-881 | consolidation leaves every row whole, every chain linked, the instance chain linked from genesis and the numbers increasing |
| Log.BatchIsFront | src/mcp_connector/audit/store.py:407-425 | what a batch takes from a chain is a contiguous front of it, and the rest stays |
| Batches.MinSurvivor | src/mcp_connector/audit/store.py:415-418 | the number of the oldest row of a chain younger than the cutoff, or none when every row is expired |
| Batches.ExpiredBatchIs | src/mcp_connector/audit/store.py:407-424 | the bounded read returns the oldest rows that are expired with everything before them in their chain, the edge included, as many as it may or all there are |
| Batches.ExpiredAreCandidates | src/mcp_connector/audit/store.py:415-424 | with any clock, the expired prefixes spare the instance chain and take a row only with every row before it in its chain |
| Batches.BatchRemoval | src/mcp_connector/audit/store.py:407-425 | deleting by the same predicate up to the last number of the batch removes exactly the rows the bounded read returned |
| Bookkeeping.NoteRemoved | src/mcp_connector/audit/store.py:729-741 | the two dictionaries hold, per chain, the hash of the youngest row of the batch and the number of rows that go |
| Bookkeeping.AbsorbOne | src/mcp_connector/audit/store.py:857-868 | taking one older marker into the dictionaries adds its count and keeps the younger end and moment when there is one |
| Runs.RemoveBatchRemoves | src/mcp_connector/audit/store.py:766-776 | a batch with its consolidation keeps the log sound and, for every chain, removes exactly the batch, raises the explained count by it, names the predecessor hash of the new head, and dates the newest marker at the moment of the sweep; a chain that lost nothing keeps its newest end and moment |
| Runs.DropAllRemoves | src/mcp_connector/audit/store.py:1080-1101 | the same for an account drop, which appends its marker without consolidating |
| Store.DropLeavesOneMarker | src/mcp_connector/audit/store.py:1088-1100 | the register after an account drop is the old one and one marker, with the number of rows that went, the end of the last of them and the moment |
| Runs.EveryMarkerIsBare | src/mcp_connector/audit/store.py:869-881 | every tombstone of every run stands in the instance chain, names a gap of another one, and carries no account, tool, client, outcome or parameter name |
| Runs.ExecInv | src/mcp_connector/audit/store.py:713-881 | every transaction keeps the invariant: whole rows, linked chains, increasing numbers, well-formed markers, and every head that is not the genesis value named by its chain's newest marker |
| Runs.EveryRunIsClean | src/mcp_connector/audit/store.py:896-946 | after any interleaving of transactions, cut off anywhere, every chain is clean |
| Verify.EveryRunChecksClean | src/mcp_connector/audit/store.py:1178-1203 | the whole check of such a store has no findings |
| Verify.ExplainedGaps | src/mcp_connector/audit/store.py:896-906 | the map read once per check holds, per chain, exactly the ends its markers name |
| Verify.ExplainedIs | src/mcp_connector/audit/store.py:378-381 | an end is explained for a chain exactly when a tombstone of the instance chain names both |
| Verify.VerifyChains | src/mcp_connector/audit/store.py:1178-1203 | the check lists the first broken place of every broken chain, each chain once and in order, and is empty exactly when every chain is clean |
| Verify.AbsentChainsAreClean | src/mcp_connector/audit/store.py:1185-1191 | a chain without a row counts as clean, so a chain that vanished is not noticed |
| Tampering.LiveRowsAreUnnamed | src/mcp_connector/audit/store.py:850-881 | after every run no marker names the digest of a row that is there, so no live row can be cut away in front and pass as swept |
| Tampering.LiveIsTail | src/mcp_connector/audit/store.py:713-881 | after every run a chain is a tail of the rows it got since it last began at genesis, and those form one whole, linked chain |
| Tampering.RegisterIsUntouched | src/mcp_connector/audit/store.py:896-946 | when a replaced store keeps the last row of every chain and the instance chain checks clean, the instance chain is the original one |
| Tampering.TamperedStore | src/mcp_connector/audit/store.py:1178-1203 | the store of any run replaced by any rows that keep the last row of every chain checks clean exactly when the instance chain is the original and every other chain is the original with at most rows put back in front that were once there, back to genesis or to an end the register still names |
| Tampering.OnlyTheStoreItself | src/mcp_connector/audit/store.py:1178-1203 | where besides no chain got longer, the only table in key order that checks clean is the original one |
| Tampering.DeletedRows | src/mcp_connector/audit/store.py:1185-1191 | rows taken from the store of any run, the rest in any order or repeated, leave it clean exactly when of every chain the beginning is left and the register that is left names every head that is left and does not point at genesis |
| Tampering.VanishedChainIsClean | src/mcp_connector/audit/store.py:1185-1191 | after every run the store without any one chain but the instance chain checks clean |
| History.Conservation | src/mcp_connector/audit/store.py:729-881 | after every run, the live rows of a chain plus the sum of all its markers are the rows ever appended to it |
| History.ExplainedEntriesExact | src/mcp_connector/audit/store.py:1214-1225 | the sum over all tombstones is the exact number of rows ever removed: all appended outside the instance chain less the live ones |
| History.NumbersNeverReused | src/mcp_connector/audit/store.py:700-726 | over a run and any continuation of it the counter never falls, live rows are ordered by number, and a number once handed out never belongs to another row |
| History.EveryRunWithoutForks | src/mcp_connector/audit/store.py:967-985 | after every run no two live rows of one chain share a predecessor hash |
| History.InstanceHistory | src/mcp_connector/audit/store.py:837-868 | after every run the rows of the instance chain that are no markers are exactly the ones appended to it, in order: no sweep or drop loses or reorders a switch row |
| RegisterBound.ConsolidatedRun | src/mcp_connector/audit/store.py:825-881 | after a consolidation the trailing markers name pairwise distinct chains in the order of their names, exactly the absorbed and the batch's, and nothing in front of them changed |
| Names.BeforeIsCodePointOrder | src/mcp_connector/audit/store.py:869 | that order is the one of the first code points in which two names differ, and a name stands before its continuations |
| RegisterBound.RegisterStaysBounded | src/mcp_connector/audit/store.py:825-848 | over every run there are at most (instance rows appended + 1) * (chains that ever lost a row) + (account drops) tombstones, however many sweeps there were |
| Sweeps.ExpireStep | src/mcp_connector/audit/store.py:762-776 | a retention batch of any size leaves the rest of the retention work of every chain as it was, for its own cutoff and every later one |
| Retention.RetentionAmongWriters | src/mcp_connector/audit/store.py:744-776 | with the appends and the sweeps of other workers anywhere between the batches, what a chain still has to give up is what its old entries with the appended ones behind them would have to |
| Retention.RetentionCompletes | src/mcp_connector/audit/store.py:744-776 | when the sweep finds nothing more, a chain is its old entries and the appended ones less the expired front, wherever between the batches they were appended |
| Sweeps.TrimStep | src/mcp_connector/audit/store.py:799-812 | an upper-bound batch removes exactly the oldest rows outside the instance chain, a full batch of them or all there are |
| Store.AuditStore.AppendRow | src/mcp_connector/audit/store.py:713-726 | the new row has the next number of the counter, links to the last row of its chain and carries its own digest; all else stays |
| Store.AuditStore.Append | src/mcp_connector/audit/store.py:967-985 | the table is the old one and one row, under the next number, with that entry, intact and pointing at the end of its chain; of an entry that is no tombstone the append keeps the invariant |
| Store.AbsorbTail | src/mcp_connector/audit/store.py:854-868 | the walk from the newest instance row back absorbs exactly the trailing run of markers |
| Store.AuditStore.WriteMarkers | src/mcp_connector/audit/store.py:816-881 | the consolidation in place computes the specified one |
| Store.AuditStore.SweepExpired | src/mcp_connector/audit/store.py:744-776 | the loop ends; every chain is its old self without the expired front, with the summed count, the end of what went and the moment in the register, for every batch size; the returned count and the affected chains are exact; nothing expired means nothing changed |
| Store.AuditStore.SweepOverLimit | src/mcp_connector/audit/store.py:779-813 | exactly the k oldest sweepable rows go, in full rounds, each on a store that was too large, and the loop stops under the limit, with nothing sweepable left, or after the maximum of rounds; for every measure of the store |
| Store.AuditStore.Sweep | src/mcp_connector/audit/store.py:987-1022 | first every chain lost exactly its expired front, then exactly the oldest rows went in full rounds, each on a store that was too large; the report counts the rows that went and the chains that lost rows and measures what is left; with nothing sweepable the store is unchanged even when it is over its bound |
| Store.AuditStore.DropUserChain | src/mcp_connector/audit/store.py:1058-1108 | the account's chain is empty, every other one is untouched, the register got one marker for it that says how many, which end and when, and an account without rows changes nothing |
| Store.AuditStore.LastEntry | src/mcp_connector/audit/store.py:1110-1123 | nothing exactly when no row has that chain, and that kind if one is asked for, and otherwise the entry of the one such row with the highest number |
| Store.AuditStore.SilentUsers | src/mcp_connector/audit/store.py:1024-1056 | exactly the accounts that have rows, none of them younger than the threshold, the edge included, each once |
| Store.AuditStore.Overview | src/mcp_connector/audit/store.py:1205-1227 | the five counts and the measurement, and that the explained count is exact after every run |
| Store.AuditStore.DropChainsWithoutAccount | src/mcp_connector/audit/record.py:188-214 | an unreadable account list changes nothing; otherwise exactly the silent chains of unlisted accounts go and no such chain is left |
| Store.AuditStore.Note | src/mcp_connector/audit/record.py:217-278 | without a caller nothing is written; otherwise the chain of the account gets one row, a call of that account with every other column as handed over, and no other chain changes; then a complete sweep exactly when its number is a multiple of 500, and exactly at every twentieth of those the account check, which empties exactly the silent chains of unlisted accounts and touches no other; after a failing append or sweep none of the steps behind it |
| Startup.AuditStartup | src/mcp_connector/entry_exapp.py:495-515 | one start records a change of the switch and only a change, and gives a store that was there one complete sweep, which takes no more and no less than a sweep takes; where there was none and the log is off there is none afterwards |
| Startup.ChangeIsRecorded | src/mcp_connector/audit/record.py:281-302 | a change of the switch is one row behind the register, with the direction, the moment of the start and an unknown actor and nothing else, and without a change nothing is written |
| Startup.SwitchesAreTheChanges | src/mcp_connector/entry_exapp.py:495-515 | over any life of starts, sweeps, appends and drops the recorded outcomes are the changes of the state in force, all of them in order, and the last one (or the shipped off) is the state in force |
| Startup.RecordedOutcomesAlternate | src/mcp_connector/audit/record.py:281-302 | the recorded outcomes alternate and begin with "on" |
| Refusals.KnownReason | src/mcp_connector/errors.py:76-94 | a known reason comes back unchanged, an unknown one as unspecified, and none only when none was given |
| Refusals.RefusalsConserved | src/mcp_connector/audit/refusals.py:142-165 | under any clock and any failing writes, per reason: what the written rows stand for, what failed writes lost and what is still pending add up to the calls made |
| Refusals.RefusalRowsAccount | src/mcp_connector/audit/refusals.py:142-171 | over any life of refused attempts, their sweeps and what other workers commit, per reason: the sum of `removed` over the rows appended to the chain of refused exchanges, with the attempts a failed write lost and those still kept back, is the number of calls |
| Refusals.RefusalRowsAreCalls | src/mcp_connector/audit/refusals.py:144-171 | every such row carries the moment and the reason of a call |
| Refusals.WhenARowIsDue | src/mcp_connector/audit/refusals.py:146-153 | a call is kept back exactly when the last row tried for its reason lies 0 to 299 seconds before it; every other call tries one row at its own moment, and none for another reason |
| Refusals.WindowsStayBounded | src/mcp_connector/audit/refusals.py:142-151 | the keys of the brake stay inside the frozen reason set |
| Refusals.RefusalRate | src/mcp_connector/audit/refusals.py:147-161 | n rows tried for one reason, those a failing store lost among them, take at least (n - 1) * 300 seconds, between any two of them, exactly when no call of that reason found the clock before the start of its open window |
| Refusals.StoredRate | src/mcp_connector/audit/refusals.py:147-161 | the rows in the store then keep that rate too, and where no append of the reason failed, only then |
| Refusals.RateOnASteadyClock | src/mcp_connector/audit/refusals.py:144-161 | it is enough that the calls of this one reason come in the order of their moments |
| Refusals.RateCanFail | src/mcp_connector/audit/refusals.py:112-115 | three calls, the second of them before the window of the first, whose rows break the rate: two carry the same moment |
| Refusals.RefusalWriter.NoteRefusal | src/mcp_connector/audit/refusals.py:104-188 | one call is one step of the brake; a swallowed call and a failed append leave the store alone; otherwise the chain of refused exchanges gets one row with the moment, the reason and the number of attempts it stands for, and six values only, and its number decides on one complete sweep, which takes no more and no less than a sweep takes |
| Printing.SecondPass | src/mcp_connector/audit/text.py:34-53 | one pass gives one line of single-spaced words within the limit, and a second takes away a trailing space and nothing else |
| Printing.OnePassIsEnough | src/mcp_connector/audit/text.py:52-53 | a second pass changes nothing exactly unless the cut falls right behind a space |
| Printing.OnePassCanFail | src/mcp_connector/audit/text.py:52-53 | at both bounds of a column, 80 and 64 characters, a name for which one pass is not enough |
| Printing.TwoPassesAreStable | src/mcp_connector/audit/text.py:34-53 | a third pass changes nothing, for every name, limit and character table |
| Printing.WordsAreKept | src/mcp_connector/audit/text.py:26-29 | before the cut no word is lost, melted or reordered |
| Printing.PrintableIsTheLine | src/mcp_connector/audit/text.py:34-53 | the rule is the first characters, up to the limit, of the line that copies every visible character and puts one space where something else lies between two of them |
| Printing.ClampedIsTheLine | src/mcp_connector/audit/store.py:594-632 | no name stays none, a name without a visible character becomes none, and any other is cut from that line |
| Printing.StoredNamePrintsAsItStands | src/mcp_connector/audit/store.py:594-632 | a name cleaned by the recorder and again by the store is dropped exactly when it has no visible character, and otherwise every reader prints it as stored |
| Cursor.CursorRoundTrip | src/mcp_connector/paging.py:35-61 | encoding, stripping the padding, padding again and decoding returns the bytes, for every byte string; the unpadded length is never 1 mod 4 |
| Cursor.CeilingInBytes | src/mcp_connector/paging.py:27 | the ceiling of 512 characters admits exactly 384 bytes |
| Cursor.BytesReadBack | src/mcp_connector/paging.py:35-61 | the bytes behind a handle come back, except none and more than 384, which are refused as such |
| Cursor.HandleReadBack | src/mcp_connector/paging.py:35-84 | a state comes back from its handle exactly when its JSON text reads back and has between 1 and 384 bytes |
| Cursor.EncodeDecode | src/mcp_connector/paging.py:52-61 | a url-safe text decodes exactly when its length is not 1 mod 4, and then encodes back to itself exactly when its unused bits are zero |
| Cursor.HandleIsTheNumber | src/mcp_connector/paging.py:35-42 | the characters of a handle are the digits, in base 64, of the number its bytes are in base 256, filled up with zero bits |
| Cursor.DigitsAreTheTable | src/mcp_connector/paging.py:42 | those digits are the ones of the url-safe alphabet |
| Cursor.AcceptedTexts | src/mcp_connector/paging.py:45-61 | a text decodes exactly when, but for white space around it, it is characters of either alphabet with padding that fits, and at most 512 of them |
| Cursor.AcceptedAs | src/mcp_connector/paging.py:59-61 | and as the same characters of the url-safe alphabet without padding |
| Cursor.WhiteSpaceAround | src/mcp_connector/paging.py:49 | white space around a handle makes no difference |
| Cursor.OneCanonicalText | src/mcp_connector/paging.py:52-61 | every text that decodes, with signs of the plain alphabet, padding or white space too, is the text this server writes for its bytes exactly when it is url-safe and its unused bits are zero |
| Cursor.OneCanonicalHandle | src/mcp_connector/paging.py:35-84 | every text that is read as a state is the handle this server writes for that state exactly when it is url-safe, its unused bits are zero and the JSON in it is the text this server writes |
| Cursor.ManyHandlesOneState | src/mcp_connector/paging.py:35-84 | handles with a set unused bit, with padding and with white space in their JSON that are read as the state {"o":0}, next to the one the server writes for it, and one with a sign of the plain alphabet |
| Ids.AcceptedIdsReencode | src/mcp_connector/ids.py:126-232 | every accepted id is one the encoders build, and they build exactly its stripped text |
| Ids.EncodersOfOne | src/mcp_connector/ids.py:58-123 | what each encoder of one segment builds, and what it refuses |
| Ids.EncodersOfTwo | src/mcp_connector/ids.py:76-113 | the same for a message and an event |
| Ids.EncoderOfThree | src/mcp_connector/ids.py:96-97 | the same for a full card id |
| Ids.NoOtherEncoder | src/mcp_connector/ids.py:58-123 | no other kind and no other number of segments is built |
| Ids.TokenTexts | src/mcp_connector/ids.py:49-55 | a token is four to thirty of the lowercase letters and digits |
| Ids.BuiltIdsParseBack | src/mcp_connector/ids.py:58-123 | an id the encoders built parses back to its kind and segments exactly when it is readable: no white space at the end of the last segment, digits for mail, table and message, a token for a conversation, a trimmed url |
| Ids.BuiltIdsCanFail | src/mcp_connector/ids.py:62-73 | a mail id of letters and a note id with a space at its end, which the encoders accept and the parser does not return |
| Providers.BehindIsFirst | src/mcp_connector/provider_map.py:204-208 | the scan finds the segment behind the first marker that has a usable one behind it |
| Providers.FindBehind | src/mcp_connector/provider_map.py:222-230 | the loop over the segments computes that scan |
| Providers.FilesGive | src/mcp_connector/provider_map.py:147-149 | a files hit gives the file id of its attribute, else of the first segment "f" with a number behind it, else its link |
| Providers.NotesGive | src/mcp_connector/provider_map.py:150-153 | a notes hit gives the note id that is the last segment of its path, else its link |
| Providers.CardsGive | src/mcp_connector/provider_map.py:154-161 | a cards hit gives the short card id of that segment, which no read tool takes as it stands, else its link |
| Providers.MessagesGive | src/mcp_connector/provider_map.py:211-239 | a message hit of either provider gives token and number of its attributes, else of the first usable segment behind "call" and of the fragment, and its link when either is missing |
| Providers.TablesGive | src/mcp_connector/provider_map.py:166-171 | a tables hit gives the number of a table in its fragment, else its link |
| Providers.ViewsAreLinks | src/mcp_connector/provider_map.py:242-253 | a view is never handed out as a table |
| Providers.OthersGive | src/mcp_connector/provider_map.py:171-173 | every other provider gives the stripped link, nothing without one, and a refusal for a blank one |
| Providers.NumberAtEnd | src/mcp_connector/provider_map.py:256-262 | the last numeric segment is what stands, in digits, between a slash and the slashes that end the path |
| Exclusion.PrefixIsFolder | scripts/tag_spike.py:2674-2676 | for clean paths, one text begins with the other and a slash exactly when the other names a folder above it |
| Exclusion.CoveredIsBeginning | scripts/tag_spike.py:2674-2676 | a tag covers a path exactly when its names are the first names of the path |
| Exclusion.AncestorsInOrder | scripts/tag_spike.py:2628-2633 | the folders above a path are its shorter beginnings, the longest first, down to the root |
| Exclusion.CoveredIsChain | scripts/tag_spike.py:2628-2676 | for normal paths the prefix test and membership in the ancestor chain agree |
| Exclusion.BundleTargets | scripts/tag_spike.py:2645-2654 | the targets are the answers and then their ancestors that are no answers, each once and in the order in which they first come, all of them and nothing else, without repeats when the answers have none |
| Exclusion.ExclusionsAgree | scripts/tag_spike.py:2679-2693 | when the tag reads agree with the tagged set on every target, both rules exclude the same answers |
| Exclusion.ExcludedIsBelow | scripts/tag_spike.py:2679-2682 | an answer is excluded exactly when its names begin with those of a tagged path |

## Left out

- Rows.HashOf: SHA-256 and the 32 byte rendering of a digest are a free constructor and an injective text, so collisions do not exist here; a writer who recomputes a whole chain is outside the construction, as in the original.
- Canonical.ListReadsBack: the reader takes no white space between the signs, which the store never writes, and no half of a surrogate pair.
- Canonical.EncodePrefixFree: over characters and not over UTF-8 bytes; a lone surrogate, which the encoder of the original refuses, is not modelled.
- Verify.VerifyChains: one committed snapshot; the several reads of the original share no transaction, so a walk interleaved with a sweep is not covered.
- Tampering.TamperedStore: the last row of every chain is taken as known, and `DeletedRows` says what is found without that where rows were only taken away. A writer who recomputes a chain to its end is not detected, in the original as here.
- Store.AuditStore.Sweep: the measure of the store is an arbitrary function of it, so nothing is said about pages, free lists or the vacuum step.
- Store.AuditStore.Note: the clock and the account list are parameters; a sweep that fails partway is a shorter list of steps, which the statements about all runs cover.
- Refusals.RefusalWriter.NoteRefusal: a sweep that throws is modelled as one that did not begin; one that throws later is again a shorter list of steps. The brake is that of one process; a restart begins with an empty one.
- Startup.AuditStartup: a start whose recording or sweep throws; `SwitchesAreTheChanges` speaks of starts that succeed.
- Printing.StoredNamePrintsAsItStands: the table of printable characters is an arbitrary predicate; the white space is that of Python's `str.split`, fixed in `Text.IsSpace`.
- Cursor.HandleReadBack: the JSON between a state and its bytes is two arbitrary functions, one of them partial; the two refusals of bytes that are no JSON object are one here.
- Cursor.AcceptedTexts: padding behind whole groups is refused, after section 3.2 of RFC 4648; what each version of Python's decoder does with it is not part of this model.
- Providers.FilesGive: as for every provider, the splitting of a link into path and fragment and the rebuilding of a link on this instance are inputs of the model.
- Transactions that overlap: SQLite's locking, write-ahead log, busy timeout and schema are replaced by atomic steps.
- The bounded read and export of rows, the wording of findings and the reading of the account list's payload: single-branch glue that would add only easy members.
- The HTTP handlers, the OAuth store and provider, the configuration parsing and the document converters.
