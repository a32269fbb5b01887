# Rarity ranking and mint-page logic, modelled in Dafny

This project models the two pieces of deterministic logic in the Darknezz
ethscription collection repository:

- **The rarity ranking engine** of `python-scripts/calculate-rarity.py`. Once the
  collection metadata is loaded, the script:
  - counts every (trait type, value) pair, after an exclusion filter;
  - scores each trait as `total_items / frequency`;
  - sums each item's scores and picks its rarest trait;
  - sorts the items by total score, stably;
  - assigns ranks, with "Featured Artist" items pinned to rank 1;
  - zero-pads the rank strings and the item numbers;
  - writes each rank back into the item's attributes as `Rarity`.

  It also chooses the next output-file version number.
- **The decision logic of `src/Mint.jsx`:**
  - which mint path is shown (whitelist or public);
  - the quantity counter (`handleMintCount`);
  - the ether value sent with a mint;
  - the ordered choice of button;
  - the "limit reached" and error messages;
  - the rule that updates the whitelist proof;
  - `cutString`, which extracts a revert reason from a contract error message.

Python and JavaScript built-ins the core relies on are modelled in `pystr.dfy`:
- `str.strip`, `str.lower` compared with an ASCII word, `str.split` on one character;
- `int()` on a string, `str(n)`, `zfill`, `f"{n:0{w}d}"`;
- lexicographic string order.

`stable_sort.dfy` is a stable insertion sort on a real-valued key. It serves
as the reference for Python's stable `list.sort`.

Files:

| file | module | contents |
|---|---|---|
| wrappers.dfy | Wrappers | `Option`, `Result` |
| stable_sort.dfy | StableSort | stable sort, order, permutation, stability, counting |
| pystr.dfy | PyStr | the Python string built-ins listed above |
| rarity.dfy | Rarity | counting, scoring, ranking, name padding, metadata update |
| versioning.dfy | Versioning | `next_version` |
| revert_reason.dfy | RevertReason | `cutString` and its regular expression |
| mint.dfy | Mint | path, counter, payment, buttons, messages, proof updates |

Scores are exact rationals (`real`). Chain values are mathematical integers.
A contract read whose data is still `undefined` is `None`.

Behaviours of the code worth noting:
- The whitelist proof is never cleared when the wallet address changes. Every
  subscription's truthy snapshot overwrites it (src/Mint.jsx:39-53).
- Scoring crashes on an attribute without a trait type, or on an empty value.
  Both cases are excluded by the precondition `Rarity.WellFormed` rather than
  handled.
- The mint path's render evaluates the write arguments before any button
  branch (src/Mint.jsx:198-207, 280-290). On the whitelist path the proof is
  spread with `[...proofWl]`, which throws unless the proof is a string or an
  array. On either path a price that is no longer loading but still undefined
  makes `BigInt` throw. No error boundary catches these errors, so the whole
  component tree unmounts: the button, the status line and the counter all
  disappear. `Mint.ShownButton` returns the errors as failures, and
  `Mint.PageStatus` drops the status line with them.

## Model

| member | source | states |
|---|---|---|
| Rarity.CountTraits | python-scripts/calculate-rarity.py:89-104 | the frequency table has exactly the counted pairs as keys, each mapped to its number of occurrences across all items |
| Rarity.FrequencyCounted | python-scripts/calculate-rarity.py:100-104 | only pairs with a non-empty type, a truthy value and a type outside the excluded, rank, rarity and Featured Artist types are ever counted |
| Rarity.FrequencyOfMember | python-scripts/calculate-rarity.py:95-104 | every attribute that passes the filter has a frequency of at least 1 |
| Rarity.WellFormedScorable | python-scripts/calculate-rarity.py:127-136 | under the no-crash precondition, every scored attribute has a positive frequency, so the division is defined |
| Rarity.TraitScore | python-scripts/calculate-rarity.py:107-109 | a trait's score times its frequency is the collection size, and every score is positive |
| Rarity.TraitScoreRarer | python-scripts/calculate-rarity.py:107-109 | a rarer trait scores strictly higher than a more frequent one |
| Rarity.Kept | python-scripts/calculate-rarity.py:130-134 | the attributes the scoring loop does not skip are all of a type outside the excluded, rank, rarity and Featured Artist types |
| Rarity.KeptAppend | python-scripts/calculate-rarity.py:126-134 | the filter distributes over concatenation, so the kept attributes stay in attribute order |
| Rarity.KeptMembers | python-scripts/calculate-rarity.py:126-134 | an attribute is kept exactly when it is one of the item's and its type is not excluded |
| Rarity.ScoredTraits | python-scripts/calculate-rarity.py:126-138 | there is one scored trait per kept attribute, in order, each carrying that attribute's type, value and score `total_items / frequency`, and every score is positive |
| Rarity.ScoredTraitsEmpty | python-scripts/calculate-rarity.py:131-134 | an item has no scored trait exactly when every attribute is of an excluded type |
| Rarity.RarestIndex | python-scripts/calculate-rarity.py:142 | the rarest trait has maximal score, and on ties it is the first such trait |
| Rarity.SumScoresBound | python-scripts/calculate-rarity.py:137 | the total score is at least the score of each scored trait |
| Rarity.IsFeaturedMeaning | python-scripts/calculate-rarity.py:113-118 | an item is featured exactly when one of its attributes has type "Featured Artist" |
| Rarity.RankingEntry | python-scripts/calculate-rarity.py:140-153 | an item enters the rankings iff it has a scored trait or is featured; with scores, its total is their sum and its rarest trait is the one at `RarestIndex`, the first of maximal score, as `max()` picks; without, its total is 999999 and its "rarest" trait is its first Featured Artist trait |
| Rarity.Collect | python-scripts/calculate-rarity.py:120-153 | every collected entry is the ranking entry of one of the items scanned, for an item that has one; there are no more entries than items |
| Rarity.CollectOne | python-scripts/calculate-rarity.py:140-153 | one item contributes its ranking entry if it has one, and nothing otherwise |
| Rarity.CollectAppend | python-scripts/calculate-rarity.py:120-153 | collecting distributes over concatenation of the item list, so entries come in item order |
| Rarity.CollectContains | python-scripts/calculate-rarity.py:120-153 | each item that has a ranking entry contributes it |
| Rarity.Entries | python-scripts/calculate-rarity.py:120-153 | `nft_rankings` before the sort holds exactly the ranking entries of the collection's items: each entry is one item's, and each item with an entry contributes it |
| Rarity.Rankings | python-scripts/calculate-rarity.py:156 | the rankings come out in non-increasing total score |
| Rarity.RankingsPermutationStable | python-scripts/calculate-rarity.py:156 | the sorted rankings are a permutation of the entries, and entries with equal totals keep their item order |
| Rarity.FeaturedIds | python-scripts/calculate-rarity.py:161-164 | the featured ids are exactly the ids (or "") of the featured items, and the set is empty iff no item is featured |
| Rarity.RankStep | python-scripts/calculate-rarity.py:176-198 | one loop step appends exactly one rank, 1 for a featured entry; it advances the counter only for a non-featured entry when featured items exist; it never changes the table entry of a featured id or of any id other than the entry's own |
| Rarity.AssignRanks | python-scripts/calculate-rarity.py:161-198 | there is one rank per entry, and every featured id keeps rank 1 in the table through the whole loop |
| Rarity.AssignRanksRanks | python-scripts/calculate-rarity.py:169-193 | a featured entry gets rank 1; any other gets 1 plus the number of non-featured entries before it, plus 1 more when featured items exist |
| Rarity.AssignRanksTable | python-scripts/calculate-rarity.py:161-198 | the id-to-rank table maps featured ids to 1 and any other id to the rank of the last entry with that id; it has no other ids |
| Rarity.RanksBounded | python-scripts/calculate-rarity.py:169-193 | every assigned rank lies between 1 and the number of items |
| Rarity.MakeLine | python-scripts/calculate-rarity.py:176-223 | a rankings line carries the rank, the rank zero-padded to the width of `str(total_items)`, the name formatted to that width, the rarest trait's type and value, and the link to the item's id |
| Rarity.RankLines | python-scripts/calculate-rarity.py:176-223 | one line per entry, in entry order; line k carries entry k's rank and padded rank text, its name formatted to the width of `str(total_items)`, its rarest trait's type and value, and the link built from its id (or "") |
| Rarity.RankFileOrder | python-scripts/calculate-rarity.py:176-226 | all rank strings have the same width, and the file lists them in lexicographic order |
| PyStr.RankStringOrder | python-scripts/calculate-rarity.py:178-226 | for ranks up to the collection size, the padded rank strings compare lexicographically exactly as the ranks compare numerically |
| Rarity.FormatName | python-scripts/calculate-rarity.py:204-215 | a name that does not split into exactly two parts on '#', or whose second part `int()` rejects (an information separator U+001C to U+001F included), is unchanged; only names with exactly one '#' can change |
| Rarity.FormatNameParsed | python-scripts/calculate-rarity.py:204-210 | a name `base#digits` whose suffix parses to n becomes the stripped base, one blank, '#', and n zero-padded to the width (`FormatPadded`), which parses back to n |
| Rarity.FormatNameIdempotent | python-scripts/calculate-rarity.py:204-215 | formatting an already formatted name gives the same name |
| PyStr.ParseFormatted | python-scripts/calculate-rarity.py:208-209 | `int()` reads back the integer that the zero-padded format wrote, for negative numbers too |
| PyStr.SplitJoin | python-scripts/calculate-rarity.py:204 | joining the parts of a split with the separator gives back the string |
| PyStr.SplitLength | python-scripts/calculate-rarity.py:204-205 | a split has one more part than the string has separators |
| PyStr.StripShape | python-scripts/calculate-rarity.py:206 | a stripped string is a slice of the input that neither starts nor ends with whitespace, and everything cut off on either side is whitespace |
| PyStr.ParseIntChars | python-scripts/calculate-rarity.py:208-209 | text that `int()` accepts holds only whitespace other than U+001C to U+001F, digits, underscores and signs, so never a '#' |
| PyStr.ParseIntSeparatorExample | python-scripts/calculate-rarity.py:208-212 | `int()` rejects "\x1c5" although `strip()` reduces it to "5": the information separators are whitespace to `str.isspace` but not to `int`, so such a name suffix leaves the name unchanged |
| Rarity.WithoutRankAttrs | python-scripts/calculate-rarity.py:242-243 | the kept attributes are exactly those whose type is not "rank" in any letter case |
| Rarity.WithoutRankAttrsConcat | python-scripts/calculate-rarity.py:242-243 | removing rank attributes keeps the remaining attributes in their order |
| Rarity.UpdateAttrs | python-scripts/calculate-rarity.py:241-254 | after the rewrite there is no rank attribute; the first rarity attribute holds the rank, or a `Rarity` attribute is appended; every other attribute keeps its place and value |
| Rarity.UpdateAttrsTwice | python-scripts/calculate-rarity.py:241-254 | rewriting with one rank and then another equals rewriting once with the second |
| Rarity.RankFor | python-scripts/calculate-rarity.py:229-236 | a featured item's rank is 1; any other item has a rank exactly when it has an id that the table holds, and then it is the table's rank for that id |
| Rarity.UpdateItem | python-scripts/calculate-rarity.py:229-239 | an item without a rank is left untouched; name and id never change |
| Rarity.UpdateAll | python-scripts/calculate-rarity.py:229-254 | every item is updated, in place and in order, and no item is added or dropped |
| Rarity.SortedLines | python-scripts/calculate-rarity.py:226 | the sorted rankings file is a permutation of the lines the ranking loop wrote, one per ranking entry, in ascending rank order |
| Rarity.SortedLinesStable | python-scripts/calculate-rarity.py:226 | the sort is stable: lines of equal rank keep the order the loop wrote them in |
| Rarity.CalculateRarity | python-scripts/calculate-rarity.py:78-254 | an empty collection is the "No items found in metadata." error; otherwise every item is returned, and the rankings are a permutation of the loop's lines, at most one per item, whose rank texts all have the width of the item count's digits and never decrease as text |
| Rarity.CalculateRarityMetadata | python-scripts/calculate-rarity.py:229-236 | featured items get rank 1, items with a ranked id get the rank of the last entry with that id, and items whose id was never ranked are unchanged |
| Versioning.NextVersion | python-scripts/calculate-rarity.py:37-48 | the next version is one more than the largest existing version, exceeds every existing version, and is 1 when there is none |
| Versioning.MaxVersionOrderFree | python-scripts/calculate-rarity.py:39 | the result does not depend on the order of the directory listing |
| Versioning.NextAfterWrite | python-scripts/calculate-rarity.py:37-55 | once a file with the new version exists, the next run picks the version after it |
| RevertReason.MatchAt | src/Mint.jsx:58-60 | a match at a position starts with the literal head, has the closing quote and colon tail just before the capture, and ends the capture at a '\n' inside the message |
| RevertReason.Search | src/Mint.jsx:60 | a found match starts at or after the search start and is the attempt's match there; no result means the attempt fails at every position from the start to the end |
| RevertReason.CutBounds | src/Mint.jsx:56-70 | the bounds of the shown text lie within the message, in order |
| RevertReason.MatchAtSound | src/Mint.jsx:58-60 | a match found at a start position is a match of the pattern there |
| RevertReason.MatchAtComplete | src/Mint.jsx:58-60 | any match of the pattern at a start position is the one found there, so it is unique |
| RevertReason.SearchLeftmost | src/Mint.jsx:60 | the search returns the match with the smallest start, and returns nothing only when the message has no match |
| RevertReason.CutString | src/Mint.jsx:56-70 | the result is always a contiguous part of the message, `s[a..b]` for some bounds within it |
| RevertReason.CutStringReason | src/Mint.jsx:61-64 | when the leftmost match captures a non-empty reason, the result is that reason, and it contains no line terminator |
| RevertReason.CutStringFallback | src/Mint.jsx:65-69 | otherwise the result is the text before the first '.', or the whole message when it has none |
| RevertReason.CutStringRevert | src/Mint.jsx:58-64 | for every message in the library's revert format with a non-empty reason on one line, the result is exactly that reason |
| RevertReason.CutStringExample | src/Mint.jsx:56-64 | a revert of `mint` with reason "Max per wallet" shows "Max per wallet" |
| Mint.RenderedPath | src/Mint.jsx:371 | the whitelist path is shown exactly when the whitelist phase is active |
| Mint.PathIgnoresPublic | src/Mint.jsx:371 | the public phase flag never changes which path is shown |
| Mint.HandleMintCount | src/Mint.jsx:351-362 | the count either stays or becomes the proposal, and a changed count is positive and within the allowance |
| Mint.HandleMintCountAccepts | src/Mint.jsx:351-362 | a proposal is taken exactly when it is positive and at most the cap minus the balance of the active phase |
| Mint.Step | src/Mint.jsx:379-386 | under the corrected rule, "+" raises the count by one or leaves it, "-" lowers it by one or leaves it, and a changed count is positive and within that render's allowance |
| Mint.Run | src/Mint.jsx:379-386 | under the corrected rule, after any presses the count is the starting one or positive, so starting at 1 it never drops below 1, and n presses move it by at most n |
| Mint.RunFrozen | src/Mint.jsx:351-362 | under the corrected rule, when no press sees a positive allowance, the count never changes |
| Mint.RunWithinSomeAllowance | src/Mint.jsx:351-362 | under the corrected rule, any count other than the starting one was within the allowance of some press |
| Mint.CounterExample | src/Mint.jsx:351-386 | under the corrected rule, with cap 5 and 3 already minted, "+" reaches 2 and stops there, and "-" never goes below 1 |
| Mint.PaymentValue | src/Mint.jsx:204-285 | the value is 0 while the price loads, and the conversion throws when the price is no longer loading but is still undefined |
| Mint.PathPayment | src/Mint.jsx:204-285 | the payment of the shown path is computed exactly when its price is loading or read; it is the price times the count, and the failure is the `BigInt` conversion error |
| Mint.PaymentAdditive | src/Mint.jsx:204-285 | the payment is linear in the count |
| Mint.PaymentPerToken | src/Mint.jsx:204-285 | one token costs the price, and n tokens cost n times that |
| Mint.PaymentExample | src/Mint.jsx:204 | a price above 2^53 is multiplied exactly |
| Mint.WhitelistButton | src/Mint.jsx:219-255 | the whitelist button is "Soon !" exactly when the phase is off; with the phase on, the spinner exactly while the write, the status, the price or the receipt loads; otherwise "Not WL" exactly without a truthy proof; Mint only with one, disabled exactly at the cap or without a wallet |
| Mint.PublicButton | src/Mint.jsx:300-328 | the public button is never "Not WL"; it is "Soon !" exactly when the phase is off, and the spinner exactly when the phase is on and the write, the status, the price or the receipt loads; Mint is disabled exactly at the cap or without a wallet |
| Mint.ShownButton | src/Mint.jsx:198-371 | a rendered button needs a readable price and, on the whitelist path, a spreadable proof; it is then the button of the path the phase flags select |
| Mint.RenderThrowsIff | src/Mint.jsx:198-290 | the render throws exactly when the payment cannot be computed or, on the whitelist path, the proof cannot be spread; the spread error wins when both fail |
| Mint.InitialProofRenders | src/Mint.jsx:32-204 | the initial empty-string proof spreads, so the whitelist path renders once its price is readable |
| Mint.SoonIffInactive | src/Mint.jsx:219-371 | "Soon !" is shown exactly when neither phase is active and the public price can be converted |
| Mint.MintEnabledIff | src/Mint.jsx:198-328 | the Mint button is enabled exactly when nothing is loading, the price was read, a wallet is connected, the active path's cap is not reached, and, on the whitelist path, a truthy string or array proof is held |
| Mint.SpinnerIffLoading | src/Mint.jsx:198-317 | the rendered button is the spinner exactly when the render reaches a button and the shown path's phase is on while something that path waits for loads |
| Mint.PriceLoadingSpins | src/Mint.jsx:198-317 | while the shown path's price loads and its phase is on, the spinner shows, whatever the proof's truthiness |
| Mint.ShownPanel | src/Mint.jsx:256-341 | the message panel is present exactly when a Mint button is shown |
| Mint.PanelCases | src/Mint.jsx:257-340 | "Minting limit reached !" is shown exactly when either active phase's cap is reached; otherwise the shortened error is shown only with a wallet connected |
| Mint.DisabledByCapWarns | src/Mint.jsx:250-333 | a Mint button disabled while a wallet is connected always comes with the limit warning |
| Mint.WhitelistStatus | src/Mint.jsx:396-404 | the status expression alone: it is present only in the whitelist phase with a wallet connected, and says "whitelisted" exactly when a proof is held |
| Mint.PageStatus | src/Mint.jsx:198-404 | the status line the page displays: present exactly in the whitelist phase with a wallet connected and a render that does not throw; then it says "whitelisted" exactly when a proof is held |
| Mint.WhitelistedLineProof | src/Mint.jsx:198-404 | "You are whitelisted !" is displayed only with a non-empty string or an array as proof |
| Mint.NotWhitelistedAgree | src/Mint.jsx:198-404 | once nothing loads, "Not WL" is shown exactly when the "not whitelisted" line would be and the render does not throw first; the only proof that gives it is the empty string |
| Mint.OnProofSnapshot | src/Mint.jsx:44-48 | a truthy snapshot replaces the proof, and any other snapshot leaves it as it was |
| Mint.Replay | src/Mint.jsx:44-48 | after any snapshots the proof is the starting one or a truthy snapshot that was received |
| Mint.ReplayIsLastTruthy | src/Mint.jsx:44-48 | the proof is the last truthy snapshot received, or the initial empty proof when there was none |
| Mint.ReplayKeepsProof | src/Mint.jsx:44-48 | a proof once held is never reset to an empty one |
| Mint.HandleMintCountAsWritten | src/Mint.jsx:352-361 | as written, the count never changes to a new value |
| Mint.AsWrittenCounterStuck | src/Mint.jsx:352-357 | as written, once the balance has been read, "+" throws instead of updating the count |
| Mint.AsWrittenCounterExample | src/Mint.jsx:352-361 | with cap 5 and 3 minted, the corrected rule takes 2 while the code as written throws |

## Left out

- File and console I/O of the script (python-scripts/calculate-rarity.py:8-34, 51-87, 256-335): the input prompt, path resolution, the directory listing, JSON loading and writing, and prints. The empty-collection exit is kept as an error result.
- The statistics section (python-scripts/calculate-rarity.py:262-335) is report printing only.
- Versioning.NextVersion: takes the versions already parsed from matching file names. The file-name pattern and `os.listdir` are not modelled. The `ValueError` branch (python-scripts/calculate-rarity.py:46-47) is not modelled. It is reachable only by a version of more than 4300 digits, which CPython 3.11 and later refuse to convert under their integer string-length limit; the model treats every digit run as a version.
- Float arithmetic and the `.2f` score formatting: scores are exact rationals. Float rounding could break ties differently.
- JSON values other than strings, integers and `null` as attribute values are not modelled. Neither are trait types that are not strings.
- Item names are strings. A `name` that is `null` or a number makes `.split` raise `AttributeError` (python-scripts/calculate-rarity.py:204); that crash is not modelled.
- Ids are strings. An `ethscription_id` key that is present with value `null` is treated like a missing key. An `"id": null` and numeric ids are not modelled. In Python they key the rank table by `None` or by the number, another entry with the same non-string id then picks up that rank, and the link ends in "/None" or in the number's digits (python-scripts/calculate-rarity.py:196-198, 217, 230-236).
- Rarity.WellFormed: scoring an attribute without a trait type, or one that was not counted, crashes the script. The model requires the input to avoid both cases instead of modelling the crash.
- PyStr.ParseInt: accepts ASCII digits only. Python's `int()` also accepts other Unicode decimal digits. It also accepts any number of digits, while CPython 3.11 and later raise `ValueError` above 4300 digits; such a name suffix is left unformatted by the script (python-scripts/calculate-rarity.py:208-210), and the model formats it.
- PyStr.LowerIs: models `lower()` only for comparison against the ASCII words "rank" and "rarity". It maps ASCII capitals and the Kelvin sign, the only characters whose lower case is in those words.
- The wagmi reads, writes and transaction waits (src/Mint.jsx:72-194, 198-217, 279-298) appear only as snapshot fields and as the flags of `TxView`.
- The Firebase initialisation and subscription wiring (src/Mint.jsx:19-29, 39-53): only the update rule for a received snapshot is modelled.
- JSX markup, styling, the success text, the supply line, and the other UI files (App.jsx, Connect.jsx, Content.jsx) are not modelled.
- The transaction lifecycle is handled by the library, not by this code.

## Findings

| source | as written | input that shows it | evidently intended | confidence | as-written member | corrected member |
|---|---|---|---|---|---|---|
| src/Mint.jsx:352-357 | `handleMintCount` computes `Number(cap) - balance`. The balance is the raw contract read, a `bigint` under the wagmi 1 / viem configuration the app uses (src/App.jsx:8-21). Subtracting a `bigint` from a `number` throws a TypeError, so the counter never moves once the balance is read. | whitelist phase active, `MAX_PER_WALLET_WL` = 5, `getWlBalance` = 3n, press "+" at count 1 | convert the balance too, `Number(cap) - Number(balance)`, so the count goes to 2 | medium, not executed; it depends on the contract ABI declaring the balance as `uint256` | Mint.HandleMintCountAsWritten | Mint.HandleMintCount |
