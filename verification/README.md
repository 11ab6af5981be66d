# chaosircd: proofs about its arithmetic, resolver, channel modes and server network

This project models the parts of chaosircd, an IRC daemon, whose correctness does not
show from reading one function, and proves what they are for. `dafny verify
dfyconfig.toml` checks all of it.

**64-bit division from 32-bit words** (`Words`, `HalfWords`, `Division`). The C run-time's
`__udivmoddi4`, in both normalisation variants, is proved to be division with
remainder on all inputs, with every primitive called within its precondition. The
heart is that the estimated digit is at most one too large, where Knuth's algorithm in
general may be two off, and that a subtraction that wraps is undone by the next one.
The portable division primitive, where it can be two off, is proved as well.

**The resolver's names and packets** (`DnsDecoder`, `DnsNames`, `DnsDotted`,
`DnsPackets`, `DnsReplies`). RFC 1035 names are given a meaning, by following
compression pointers, that does not mention the code. The decoder succeeds on exactly
the names within its limits and yields exactly them; the skipper agrees with it; dotted
text and wire form are inverse to each other; a query is recognised by exactly its
answers; the k-th address of a reply is found whatever its owner names look like. Names
are handed on as C strings, so it is said exactly which of them are read back whole; a
legal name of 255 octets in a PTR record is not.

**Channel modes** (`Glob`, `MatchBudget`, `MaskLists`, `MaskCover`, `BanMasks`,
`BanCheck`, `ModeChanges`, `ModeEffects`, `Replication`, `ModeLines`, `Tokens`, `ModeParsing`, `ModeDelivery`).
Masks are matched within 512 turns, which is followed turn by turn. Mask lists stay
antichains. A list of changes grows while it is applied; what is left of it tells what is
set and why each change was let through or bounced, and, replayed on a peer, leaves the peer with the same modes. The changes are split into bounded lines
and read again. The statements that fail are stated with the condition under which they
hold and a concrete input:

- a refused ban can remove another, with `?` in a mask, or without, for the 512 turns;
- an accepted ban can free somebody whom the ban it replaces had caught, with `?`, or
  without, for the 512 turns; finite tests say exactly when;
- a mask too costly to match itself stays on the peers when `-b *`, or a refused ban,
  removes it;
- a ban user@host@more is rewritten differently by the peer that receives it;
- a line to a server carries up to 16 changes, but only the first four are read, so a
  ban that covers 4 to 15 others is lost on the peer while four are removed there;
- one unknown member takes every privilege change behind it on the line with it.

**Privileges and members** (`Prefixes`, `Njoin`). The prefix printed by selection is in
falling order, is read back, and the NJOIN lines of a burst give back every member with
all privileges.

**The network of servers** (`Network`, `Flooding`, `ServerSend`, `World`, `Netsplit`,
`Lifecycle`, `Burst`). Flooding is a state machine over messages on their way: in every
interleaving each server gets a message once and the origin never, and the direction
check drops nothing, and ends the message where links form loops. A netsplit removes exactly what hangs below a server. All events
keep the tree and the memberships valid over every run, parts and kicks included. A burst tells a new neighbour
of everything, each item once and after all it refers to.

**Two indexes** (`DnsCache`, `UserModes`). The cache with its fixed slots keeps exactly
the addresses asked for last; the lists kept for user modes name exactly their users.

Code that works in place is a method over arrays or a class, proved against functions on
values; the properties are lemmas about those functions. `Prelude` holds what is shared.

Where code and documentation differ, the model follows the code: `chanmode_parse` is
documented to stop after `pc` changes, but the counter it compares stays 0
(src/chanmode.c:517), and it stops at four changes whoever sends them
(src/chanmode.c:510-511).

## Model

| member | source | states |
|---|---|---|
| Words.CountLeadingZeros | lib/include/libchaos/divdi3.h:71-73 | for a non-zero word, the shift below 32 that sets its top bit without losing one |
| HalfWords.HalfEstimate | lib/include/libchaos/divdi3.h:1247-1250 | the estimate of a half digit is never too small and at most two too large |
| HalfWords.EstimateCanBeTwoOff | lib/include/libchaos/divdi3.h:1247-1257 | for one divisor and remainder it is two too large, so that both corrections happen |
| HalfWords.HalfDigit | lib/include/libchaos/divdi3.h:1247-1258 | one more half digit, for every divisor with its top bit set: the two corrections, which tell by wrapping whether they may stop, leave the exact digit and remainder |
| HalfWords.UDivQrnndC | lib/include/libchaos/divdi3.h:1240-1275 | the portable primitive on half words divides two words by one exactly, for a divisor whose top bit is set |
| HalfWords.UDivQrnnd | lib/include/libchaos/divdi3.h:54-64 | two words by one, exact; the high word must be below the divisor, and the divisor normalised where that is asked for |
| HalfWords.UMulPpmm | lib/include/libchaos/divdi3.h:1207-1228 | the full two-word product, from four half-word products and one carry that may be lost |
| Words.SubDdmmss | lib/include/libchaos/divdi3.h:83-89 | two-word subtraction, the borrow out lost (modulo 2^64) |
| Words.ShlSplits | lib/src/divdi3.c:146-151 | a shift left by k and the complementary shift right split a word without losing a bit |
| Words.OrDisjoint | lib/src/divdi3.c:113 | the two halves of a shifted word, which have no bit in common, are added by `|` |
| Division.NormalizePair | lib/src/divdi3.c:222-229 | the three-word shift left multiplies the numerator by 2^bm |
| Division.ShiftLeftPair | lib/src/divdi3.c:222-229 | the shift as the code does it, with the bits pushed out in the third word |
| Division.ShiftRightPair | lib/src/divdi3.c:246-247 | the shift back divides the two-word value by 2^bm |
| Division.ShiftBack | lib/src/divdi3.c:246-247 | for a remainder that is a multiple of 2^bm the two shifted words are the quotient by 2^bm |
| Division.Denormalize | lib/src/divdi3.c:242-248 | dividing the scaled numerator by the scaled divisor gives the same quotient and the scaled remainder |
| Division.EstimateTimesLowWord | lib/src/divdi3.c:231-232 | as n2 < 2^bm and d0 is a multiple of 2^bm, the estimate times d0 stays below the divisor |
| Division.EstimateWithinOne | lib/src/divdi3.c:231-238 | the estimated digit is the true one or one more, and one more exactly when the comparison says so |
| Division.SingleCorrection | lib/src/divdi3.c:234-245 | one decrement gives quotient and remainder; the wrap of m - d is cancelled by n - m |
| Division.CorrectedDigit | lib/src/divdi3.c:231-245 | the normalised two-word case: n == q * d + r with r < d, and the calls meet their preconditions |
| Division.EstimateAndCorrect | lib/src/divdi3.c:221-250 | the whole two-word case, from normalising to the remainder shifted back |
| Division.SubtractOnce | lib/src/divdi3.c:193-217 | the divisor with its top bit set: quotient 0 or 1, and its remainder |
| Division.DivideByWord | lib/src/divdi3.c:64-95 | divisor of one word, both branches of the variant without normalising |
| Division.DivideShortNormalized | lib/src/divdi3.c:101-121 | divisor of one word, normalised first: one quotient word, remainder still shifted |
| Division.DivideLongNormalized | lib/src/divdi3.c:122-161 | divisor of one word, normalised first: two quotient words, remainder still shifted |
| Division.DivideByWordNormalized | lib/src/divdi3.c:99-169 | the two together, with the remainder shifted back |
| Division.UDivMod | lib/src/divdi3.c:46-257 | for every n and every d but 0, in both variants and every branch: the quotient and the remainder of n by d |
| Division.DivDi3 | lib/src/divdi3.c:259-282 | the truncating quotient exactly when it is not INT64_MIN / -1, which wraps to INT64_MIN |
| Division.ModDi3 | lib/src/divdi3.c:284-304 | the truncating remainder, for every pair but a zero divisor |
| Division.UDivDi3 | lib/src/divdi3.c:306-309 | the unsigned quotient |
| Division.UModDi3 | lib/src/divdi3.c:311-318 | the unsigned remainder |
| Division.TruncatedDivision | lib/src/divdi3.c:259-304 | quotient and remainder rebuild the dividend; the remainder is smaller than the divisor and takes the dividend's sign |
| DnsDecoder.DenotesUnique | lib/servauth/dns.c:369-437 | a position in a packet starts at most one name (section 4.1.4 of RFC 1035) |
| DnsDecoder.DecodeSound | lib/servauth/dns.c:369-437 | what the decoder yields is the name that starts there by following pointers, within the step and size limits |
| DnsDecoder.DecodeComplete | lib/servauth/dns.c:369-437 | every name within those limits is decoded |
| DnsDecoder.DecodesExactlyTheName | lib/servauth/dns.c:369-437 | success if and only if a name within the limits starts there, and then exactly that name; cyclic and forward pointers included |
| DnsDecoder.FollowPointers | lib/servauth/dns.c:400-422 | the inner pointer loop, against the decoder function |
| DnsDecoder.StartLabel | lib/servauth/dns.c:399-433 | the branch that starts a label or ends the name, against the decoder function |
| DnsDecoder.DecodeName | lib/servauth/dns.c:369-437 | the loop over a 256-octet array: ends, reads below len, writes inside the buffer, and computes the decoder function; on success the end is the one dns_packet_skipname gives |
| DnsDecoder.SkipName | lib/servauth/dns.c:343-364 | the position behind a name stepping label by label, 0 if there is none |
| DnsNames.WireLength | lib/servauth/dns.c:457-468 | the length of a name in wire form |
| DnsNames.CompareFolded | lib/servauth/dns.c:474-492 | 1 exactly if two stretches differ after folding case |
| DnsNames.LowerFoldsLetters | lib/servauth/dns.c:482-486 | A to Z are folded to a to z, and nothing else is |
| DnsNames.FoldedWireEqual | lib/servauth/dns.c:498-511 | comparing wire forms octet by octet after folding is comparing names label by label, as length octets are never letters |
| DnsNames.CompareNames | lib/servauth/dns.c:498-511 | 1 exactly if the two names are the same but for case (section 2.3.3 of RFC 1035) |
| DnsDotted.CopyLabel | lib/servauth/dns.c:534-550 | one label's letters, digits, `-` and `_`, in lower case, cut at n |
| DnsDotted.WireToDotted | lib/servauth/dns.c:517-561 | the dotted text of a name, at most n octets of it and a zero |
| DnsDotted.StoreLabel | lib/servauth/dns.c:581-590 | a finished label moves to the name buffer with its length in front, or it does not fit |
| DnsDotted.CollectLabels | lib/servauth/dns.c:575-630 | the loop over the text: runs between dots become labels, empty ones are skipped |
| DnsDotted.DottedToWire | lib/servauth/dns.c:567-647 | the wire form of the text's labels, or 0 exactly if a limit of section 2.3.4 of RFC 1035 is broken |
| DnsDotted.TextRoundTrip | lib/servauth/dns.c:517-647 | text over letters, digits, `-`, `_` and dots comes back in lower case without its empty labels |
| DnsDotted.NameRoundTrip | lib/servauth/dns.c:517-647 | lower-case wire names survive the opposite trip |
| DnsDotted.CleanOctet | lib/servauth/dns.c:534-547 | of the octets of a label the letters stay, in lower case, with digits, `-` and `_`; all others are dropped |
| DnsDotted.LabelsAreRuns | lib/servauth/dns.c:575-630 | for every text, whatever octets it holds: its labels are its longest stretches without a dot |
| DnsDotted.DottedHoldsLabels | lib/servauth/dns.c:517-561 | the text of any name holds its labels, cleaned, and one dot less than there are labels |
| DnsDotted.DecimalReads | lib/servauth/dns.c:226-246 | the digits of an octet are a decimal numeral, without a leading zero, and read as the octet by a reader of their own |
| DnsDotted.ReverseNameReads | lib/servauth/dns.c:204-252 | the four labels of the name are numerals that read as the octets from the last to the first; behind them in-addr and arpa |
| DnsDotted.DecimalLabel | lib/servauth/dns.c:226-246 | one octet as a label of its decimal digits, of which DnsDotted.DecimalReads says what number they write |
| DnsDotted.AddressToWire | lib/servauth/dns.c:204-252 | the wire form of a name whose first four labels are numerals that read as the octets in reverse order, under in-addr.arpa (section 3.5 of RFC 1035) |
| DnsPackets.PacketCopy | lib/servauth/dns.c:325-341 | the octets asked for and the position behind them, or 0 if the packet ends before |
| DnsPackets.CopyString | lib/src/str.c:622-643 | strlcpy: the text up to its zero, cut to the size, and a zero |
| DnsPackets.GetName | lib/servauth/dns.c:369-452 | the decoded name as a C string cut to the caller's size, how much of the buffer it overwrites, and the end position, or 0 |
| DnsPackets.CopiedWholeIff | lib/servauth/dns.c:439-452 | a decoded name is returned whole if and only if its only zero octet is its end and it fits |
| DnsPackets.CopyIsReadBack | lib/servauth/dns.c:457-468 | what dns_dn_len finds in the copy: the labels read back, or that it reads on behind the copy |
| DnsPackets.ReadBackIff | lib/servauth/dns.c:439-468 | the whole name is read back if and only if no label holds a zero octet and it fits; otherwise at most a name cut between two labels exactly where the room ends |
| DnsPackets.ZeroLabelIsUnreadable | lib/servauth/dns.c:1192-1195 | a question for the one-octet label 0 is decoded, but no name ends in its copy, whatever else the packet holds |
| DnsPackets.Resolver.constructor | lib/servauth/dns.c:1401-1432 | a resolver with no query |
| DnsPackets.Resolver.TransmitStart | lib/servauth/dns.c:1401-1432 | the packet laid out is a query for exactly that name and type (sections 4.1.1 and 4.1.2 of RFC 1035), behind its TCP length |
| DnsPackets.Resolver.Irrelevant | lib/servauth/dns.c:1170-1212 | on every packet: an answer exactly if it has the same ID and a single question equal up to letter case; open exactly if the question's name is decoded but cannot be read back, because the code then reads memory it never wrote |
| DnsPackets.SameQuestion | lib/servauth/dns.c:1192-1198 | reads the question's name and compares it with the query's, on every packet |
| DnsPackets.WireDenotes | lib/servauth/dns.c:1401-1432 | a name written out in full is found there by the decoder, and ends where its octets end |
| DnsPackets.OwnQueryAnswers | lib/servauth/dns.c:1170-1212 | a packet laid out like the query, in any letter case, is accepted as its answer |
| DnsReplies.WrittenIsSkipped | lib/servauth/dns.c:343-364 | a name as written in a record, compressed or not, is skipped to its end |
| DnsReplies.WalkRecords | lib/servauth/dns.c:1302-1352 | the record loop, against the scan function, on any packet |
| DnsReplies.ExtractAddress | lib/servauth/dns.c:1276-1355 | 1 with the address, 0 if there is none, -1 if header or question is cut off, on any packet |
| DnsReplies.AddressOfReply | lib/servauth/dns.c:1276-1355 | on an encoded reply: the k-th record of type A, class IN and length 4, or 0 if there are fewer, however owner names are written |
| DnsReplies.AddressOfCutReply | lib/servauth/dns.c:1302-1352 | of a packet that is cut off somewhere: the k-th address among the records that are whole, and none behind |
| DnsReplies.ScanFindsPointer | lib/servauth/dns.c:1218-1270 | on an encoded reply the scan stops at the first PTR record of class IN |
| DnsReplies.PointerOfCutReply | lib/servauth/dns.c:1240-1267 | of a packet that is cut off somewhere: the first PTR record in front of that place, else that it is cut off |
| DnsReplies.FindPointer | lib/servauth/dns.c:1240-1267 | the record loop of dns_extract_name, against the scan function |
| DnsReplies.NameText | lib/servauth/dns.c:1257-1263 | the PTR data decoded, read back from its copy and written as dotted text |
| DnsReplies.PointerNameIff | lib/servauth/dns.c:1257-1263 | read back whole are exactly the names of up to 254 octets without a zero octet; a name of 256 octets whose last label has one octet loses that label; all others run on behind the copy |
| DnsReplies.LongestNameIsCut | lib/servauth/dns.c:1257 | the reply with a PTR name of 255 octets, legal by section 2.3.4 of RFC 1035: the record is found, and its name cannot be read back |
| DnsReplies.LongReplyIsReply | lib/servauth/dns.c:1257 | there is such a reply |
| DnsReplies.ExtractName | lib/servauth/dns.c:1218-1270 | on every packet: the dotted text of the first PTR record's name, that there is none, or that something is cut off or empty; open exactly if the name is decoded but cannot be read back |
| Glob.StrMatch | lib/src/str.c:1317-1373 | what the function of at most 512 turns answers, for all C strings |
| Glob.TurnIsRight | lib/src/str.c:1329-1372 | a turn that answers answers what the mask means; one that goes on has advanced and hinges on the same question |
| Glob.StrMatchesIsMatching | lib/src/str.c:1317-1373 | a yes is always right; yes and no are, where (length + 1) times (longest stretch of the mask without a star + 1) is within 512 |
| Glob.SkipStars | lib/src/str.c:1333-1334 | to the end of a run of stars |
| Glob.PlainIsLast | lib/src/str.c:1346 | where the mask ends but for its trailing question marks |
| Glob.Reflexive | lib/src/str.c:1317-1373 | by its meaning, every mask matches itself |
| Glob.Transitive | lib/src/str.c:1317-1373 | by its meaning, matching composes unless the outer mask has `?` and the middle one `*` |
| Glob.NotTransitive | lib/src/str.c:1317-1373 | with `?` it does not: `ab` matches `*` and `*` matches `?` |
| MatchBudget.SelfMatches | lib/src/str.c:1317-1373 | str_match finds that a mask matches itself if it has no `?` (and at most 510 characters), or if the budget suffices |
| MatchBudget.BudgetBreaksReflexivity | lib/src/str.c:1317-1373 | it does not find it of a mask for a host of twenty stars, thirty question marks and an `a` |
| MatchBudget.BudgetBreaksComposition | lib/src/str.c:1317-1373 | three masks without `?`, of 64, 20 and 15 characters: the first is matched by the second, that by the third, but the first not by the third |
| MatchBudget.BareStarIff | lib/src/str.c:1317-1373 | a bare star is answered yes for exactly the strings of up to 1022 characters |
| MaskLists.MaskList.constructor | src/chanmode.c:1173-1243 | an empty list |
| MaskLists.MaskList.Delete | src/chanmode.c:1247-1251 | the item taken out, the others in order |
| MaskLists.MaskList.Add | src/chanmode.c:1173-1243 | refused at 64 masks; else linked behind the first run of the same setter, or at the tail |
| MaskLists.MaskList.TryAdd | src/chanmode.c:1061-1079 | the + half of chanmode_bounce_mask: result, list and inserted deletions |
| MaskLists.MaskList.TryDel | src/chanmode.c:1080-1093 | the - half: result, list and inserted deletions |
| MaskLists.AddIsExact | src/chanmode.c:1061-1079 | for any matching relation and any list: bounced if and only if a mask of the list matches the new one; when it gets through, the masks the new one matches are replaced by it, each with a deletion inserted; when full, nothing changes |
| MaskLists.InsertedBehindRun | src/chanmode.c:1224-1242 | where a mask is linked: behind the first run of masks of its setter, at the tail if there is none |
| MaskLists.ScanInTurn | src/chanmode.c:1061-1079 | the scan for + keeps and drops masks, and inserts deletions, in the order of the list |
| MaskLists.AddKeepsAntichain | src/chanmode.c:1061-1079 | for any matching relation a + leaves an antichain of at most 64 masks |
| MaskLists.AddIsAllOrNothing | src/chanmode.c:1061-1079 | where matching composes through the new mask, 1 and -2 leave the list unchanged |
| MaskLists.AddExtendsMatching | src/chanmode.c:1061-1079 | when a + gets through, a string that is matched by the new mask if by a dropped one stays matched, and nothing else comes to be matched but by the new mask |
| MaskCover.FillingsDecide | src/chanmode.c:1061-1079 | a finite test, with a character of its own in place of question marks and stretches of it in place of stars, decides whether everything one mask means is meant by one of others |
| MaskCover.AddKeepsCoverageIff | src/chanmode.c:1061-1079 | when a + gets through, everything meant before is meant after if and only if each mask it replaces passes that test against the masks it leaves |
| MaskCover.TestedStaysFound | src/chanmode.c:1061-1079 | and then str_match still finds every string it found, if the budget suffices for it and the masks left |
| MaskCover.FailedTestLosesSome | src/chanmode.c:1061-1079 | of a mask that fails the test some string it means is found by none of the masks left |
| MaskCover.AddMissesNothingIff | src/chanmode.c:1061-1079 | whatever the masks cost: str_match finds all strings it found before if and only if it finds those of at most 1026 characters over the letters of the masks and one other |
| MaskLists.CoveredStaysMatched | src/chanmode.c:1061-1079 | as it does, for str_match too, if the new mask has no `?` or the dropped one no `*` and the budget suffices for the string |
| MaskLists.AcceptedAddCanUncover | src/chanmode.c:1061-1079 | with `?` a + that gets through can uncover: `?!*@*` replaces `*!*@a`, and `ab!u@a` is matched no more |
| MaskLists.AcceptedAddCanMiss | src/chanmode.c:1061-1079 | and without `?`: a mask of 15 characters replaces one of 20, and a text of 64 is found no more, although it is meant |
| BanCheck.MatchBan | src/chanmode.c:1098-1123 | who is banned: found by nick, user and one of three hosts, each with its part of a mask |
| BanCheck.BannedUnderAHost | src/chanmode.c:1098-1123 | a user is banned exactly if it is under one of its hosts |
| BanCheck.BannedWithoutUser | src/chanmode.c:1103-1121 | a client without a user name is found by nick and host alone |
| BanCheck.TextMatchesByParts | src/chanmode.c:1067-1073 | as the texts the list is kept by, masks of which no part holds a separator match, by their meaning, if and only if nick, user and host do |
| BanCheck.KeptIsLeft | src/chanmode.c:1061-1079 | a ban that gets through leaves in the list the masks that as texts it does not match, and itself |
| BanCheck.PeopleTestDecides | src/chanmode.c:1061-1123 | a finite test, with people some characters of whose names are hidden, decides whether everybody who may exist and is meant by some masks is meant by others |
| BanCheck.PeopleStayBannedIff | src/chanmode.c:1061-1123 | when a ban replaces others, and the longest stretches without a star are within 14, 29 and 6: everybody who was banned stays so if and only if the test says so |
| BanCheck.NobodyIsMissedIff | src/chanmode.c:1098-1123 | whatever the masks cost: if and only if everybody does whose name is made of the characters of the masks and one other |
| BanCheck.ReplacementKeepsBanned | src/chanmode.c:1061-1123 | so it is with a mask that in no part has a `?` where the replaced one has a `*`, if 512 turns suffice |
| BanCheck.QuestionFrees | src/chanmode.c:1061-1123 | with `?`: `?!*@*` replaces `*!*@a` and frees the user ab!u@a |
| BanCheck.BudgetFrees | src/chanmode.c:1061-1123 | without: a user on a host of 62 `a` and a `b` is freed when `*!*@*aaaaaaaaab` replaces `*!*@aaaaa*aaaaaaaaab`, although it is meant |
| MaskLists.ScanHits | src/chanmode.c:1061-1067 | the scan is stopped exactly by a list that already matches the new mask |
| MaskLists.BouncedAddUntouched | src/chanmode.c:1061-1079 | for any matching relation: a bounced + leaves the list alone if and only if no mask in front of the one that stops it is covered by the new one |
| MaskLists.BouncedAddKeepsAntichain | src/chanmode.c:1061-1079 | which in an antichain is always so where matching composes through the new mask |
| MaskLists.BouncedAddCanDrop | src/chanmode.c:1061-1079 | with `?` a bounced + can lose a ban: `*!*@*` added to `ab!*@*`, `?!*@*` |
| MaskLists.BudgetBreaksAllOrNothing | src/chanmode.c:1061-1079 | without any `?`: of two unrelated masks the first is dropped for a new one that is then refused, as the budget is too small for the first against the second |
| MaskLists.StarMasksCompose | src/chanmode.c:1048-1094 | str_match composes on masks without `?` for each pair of which the budget suffices |
| MaskLists.DelRemovesComparable | src/chanmode.c:1080-1093 | a - removes exactly the masks comparable with its own and inserts a deletion for each |
| MaskLists.DelInTurn | src/chanmode.c:1080-1093 | and so does the scan for - |
| MaskLists.DelOfMember | src/chanmode.c:1080-1093 | removing a mask of an antichain by its own text removes it alone |
| BanMasks.CleanPart | src/chanmode.c:992-1036 | a part cut to its size and at the first character not allowed, `*` if nothing is left |
| BanMasks.NormalizeArgument | src/chanmode.c:913-1038 | the rewriting of a mask argument, for every text: what the forms nick, user@host and nick!user@host give for each part, told from where the separators stand; of each part the longest start that fits and is allowed, `*` if it is empty |
| BanMasks.NickOnlyMadeOf | src/chanmode.c:936-946 | an argument without `@` is a nick, up to a `!`; user and host become `*` |
| BanMasks.UserHostMadeOf | src/chanmode.c:947-959 | user@host, with no `!` in front of the `@`: the nick becomes `*`, the host goes up to a `!` |
| BanMasks.FullMadeOf | src/chanmode.c:973-1001 | nick!user@host gives its three parts, the user up to a further `!`, the host up to a further `!` or `@` |
| BanMasks.NormalizeIsMadeFrom | src/chanmode.c:913-1038 | every argument has one of the three forms |
| BanMasks.NormalizeAgain | src/chanmode.c:913-1038 | rewriting a rewritten mask keeps it unless, as the argument shows, no `!` precedes its first `@` and a second one follows within the characters of the host that are kept |
| BanMasks.SecondAtUnstable | src/chanmode.c:943-957 | user@host@more is stored as *!user@host@more, and then, rewritten by a peer, as *!user@host |
| BanMasks.NormalizeNotIdempotent | src/chanmode.c:913-1038 | so the rewriting is not idempotent |
| ModeChanges.StepKeepsMembers | src/chanmode.c:600-698 | no change adds or removes a member |
| ModeChanges.ModePass.constructor | src/chanmode.c:600-603 | a channel and a list of changes |
| ModeChanges.ModePass.One | src/chanmode.c:619-690 | one change: denied, bounced, filtered or let through |
| ModeChanges.ModePass.Treat | src/chanmode.c:616-691 | the change and the deletions linked in front of it take its place; the walk goes on behind it |
| ModeChanges.ModePass.Run | src/chanmode.c:600-698 | the pass over a list that grows while it is walked: channel, list and count as the function of whole passes gives them, of which ModeEffects.PassDecides says what it does |
| ModeEffects.RefusedChangesNothing | src/chanmode.c:618-634 | a change is refused exactly where a local user who is a member holds none of the privileges it needs: it is bounced and nothing changes; nor does a query change anything |
| ModeEffects.AllowedChangeSets | src/chanmode.c:886-909 | an allowed + leaves the flag, or the privilege of its target (src/chanuser.c:683-712), set and an allowed - leaves it clear; it is bounced exactly if that was so before |
| ModeEffects.OthersUnchanged | src/chanmode.c:886-909 | no other flag, privilege or list changes |
| ModeEffects.AllowedMaskIsAdded | src/chanmode.c:1048-1077 | an allowed + of a mask takes the rewritten mask: bounced exactly if a mask of the list matches it, or the list is full and it matches none; else it is put in, tagged with its setter, and those it matches go, a deletion for each in front of it |
| ModeEffects.AllowedMaskIsRemoved | src/chanmode.c:1080-1093 | an allowed - of a mask takes out the masks that match or are matched, a deletion for each, and is bounced itself |
| ModeEffects.PassDecides | src/chanmode.c:600-698 | of every pass, by the list it leaves: a flag or privilege is set behind it exactly as the last unbounced change of it says, or as before if there is none; and each change is bounced exactly if it is a query, not allowed by what the changes in front of it have set, or asks for what they have set |
| ModeEffects.PassKeepsPlain | src/chanmode.c:600-698 | the pass keeps the changes of flags and privileges in order; what it adds are deletions, and what it counts is what else got through |
| ModeEffects.UnnamedListStays | src/chanmode.c:600-698 | a list that no change of the pass names stays as it is |
| Replication.StepKeepsSound | src/chanmode.c:600-698 | every change leaves every mask list an antichain of at most 64 |
| Replication.ApplyKeepsSound | src/chanmode.c:600-698 | so does every pass |
| Replication.ApplyConcat | src/chanmode.c:600-698 | applying two lists in turn is applying the one made of both |
| Replication.ReplayDeletions | src/chanmode.c:218-251 | the inserted deletions, replayed, remove exactly their masks and are relayed on as they are |
| Replication.ReplayAddition | src/chanmode.c:1173-1243 | the addition behind them is let through by the peer |
| Replication.ReplayStep | src/chanmode.c:600-698 | one change's unbounced output brings a like peer to the same flags, privileges and masks |
| Replication.PassReplicates | src/chanmode.c:600-698 | so does a whole pass, whether or not matching composes; the peer relays on exactly what it was sent |
| Replication.DelReplicatesExactlyWhenSelfMatched | src/chanmode.c:1080-1093 | for any matching relation a - on a list reaches the peer if and only if every mask it removes matches itself |
| Replication.RefusedAddReplicatesIff | src/chanmode.c:1061-1079 | for any matching relation a refused + reaches the peer if and only if each mask it matches in front of the one that stopped it matches itself or is in the list again |
| Replication.CostlyMaskStaysOnRefusal | src/chanmode.c:1061-1079 | so when `*!*@*` is refused on account of `*!*@?`, a mask too costly to match itself is gone here and stays on the peers |
| Replication.CostlyMaskStays | src/chanmode.c:1080-1093 | and `-b *` removes it here, and leaves it on the peers |
| Replication.FailingMasksAreStored | src/chanmode.c:913-1038 | the masks on which matching fails are bans that are stored as they are written |
| Replication.AddReplicatesExactlyWhenStable | src/chanmode.c:913-1044 | a + that got through to a list of masks that match themselves reaches the peer if and only if rewriting its mask once more changes nothing |
| Replication.UnstableDiverges | src/chanmode.c:913-1044 | otherwise the two servers keep different masks |
| Replication.IrcdPassReplicates | src/chanmode.c:600-698 | the theorem with str_match and its budget and the server's own rewriting: masks that match themselves, arguments whose host keeps no second `@` |
| ModeLines.Put | src/chanmode.c:744-747 | strcpy into a buffer, within its bounds |
| ModeLines.PutArg | src/chanmode.c:741-748 | an argument, with a space in front if there is one before it |
| ModeLines.Write | src/chanmode.c:719-757 | one change of the loop: passed over if bounced, else its argument, sign and letter |
| ModeLines.Assemble | src/chanmode.c:702-769 | the line holds exactly the unbounced changes of the part taken, in order, at most min(count, 16) of them, at most 32 characters, arguments within n; it stops only when full; it takes nothing if and only if the first argument is longer than n - 2 |
| ModeLines.OverflowIsNoRoom | src/chanmode.c:740-748 | an argument does not fit exactly if the text with it and a zero would not; a first one, if not even with one character to spare |
| ModeLines.Send | src/chanmode.c:773-815 | the lines together carry exactly the unbounced changes, in order, none empty |
| Tokens.Skip | lib/src/str.c:898-900 | to the end of a run of blanks, or of a word |
| Tokens.TakeRemains | lib/src/str.c:930-948 | the rest of the line as one argument, without blanks at its end |
| Tokens.Tokenize | lib/src/str.c:890-953 | the walk over a text, against the function of its words, of which Tokens.TokensAreTokens says what they are |
| Tokens.TokensAreTokens | lib/src/str.c:890-953 | for every text and maximum, told without the walk: the stretches without blanks, each up to a blank or the end with only blanks between, up to the first with a colon in front or the last there may be; that one takes the rest of the line, without the colon and the blanks at its end |
| Tokens.SpelledComeBack | lib/src/str.c:890-953 | words with single spaces between them come back |
| ModeParsing.Parse | src/chanmode.c:415-520 | the flag walk, for every text: each change is what its letter says under the last sign in front of it, with the next word not used up if it carries one; all other characters say nothing; it stops at four changes, and the limit only counts if it is 0 |
| ModeParsing.PreparedSays | src/chanmode.c:270-402 | one letter: a list mode without an argument, or in a query, is a query; a list or privilege change carries as much of the next word as fits; a privilege for which there is no word, or one that names nobody, is no change and uses none |
| ModeParsing.ParsedSaysAll | src/chanmode.c:415-520 | the whole line: increasing positions say the changes, each with the word behind those that were used, and the characters between them say nothing |
| ModeParsing.LettersTurn | src/chanmode.c:754-760 | the letters of a line written repeat no sign that is in force |
| ModeParsing.LineRoundTrip | src/chanmode.c:415-520 | a line made of up to 16 changes is read as its first four: sign, letter, argument and member |
| ModeParsing.LineComesBackIff | src/chanmode.c:510-511 | so all of it comes back if and only if there are at most four |
| ModeParsing.LineComesBackIffMembersFound | src/chanmode.c:327-380 | a line of at most four changes that is understood but for the members named comes back if and only if each of them is found |
| ModeParsing.UnknownMemberBlocksLine | src/chanmode.c:327-380 | a privilege change for somebody the reader does not know is lost, and with it every privilege change behind it, because its argument is not used up |
| ModeDelivery.DeliverShortLines | modules/msg/m_mode.c:143-153 | lines of at most four changes, read and applied one by one, have the effect of all their changes in order |
| ModeDelivery.WireReplicates | modules/msg/m_mode.c:143-153 | with such lines a pass reaches the peer over the wire: same flags, privileges and masks |
| ModeDelivery.CoveringMaskIsLost | src/chanmode.c:819-884 | a + that covers 4 to 15 masks is sent as one line of which the peer reads only four deletions: it loses four masks and never gets the new one |
| Prefixes.FindBest | src/chanmode.c:1263-1278 | the inner loop: the first set privilege of the highest order below the bound |
| Prefixes.PickedInOrder | src/chanmode.c:1255-1292 | privileges in strictly falling order, the first of each order that is set, no order missed |
| Prefixes.PickedFits | src/chanmode.c:1255-1292 | never more symbols than places in the table, so the buffer of 65 is enough |
| Prefixes.MakePrefix | src/chanmode.c:1255-1292 | ends as its bound falls, and leaves the prefix in the array with its zero |
| Prefixes.ParsePrefix | src/chanmode.c:1333-1361 | the flags of the symbols up to a colon or a stranger |
| Prefixes.FlagsAreOfSymbols | src/chanmode.c:1333-1361 | of every text: the flags of the symbols in front, of each the first privilege that has it, up to a colon or a stranger |
| Prefixes.PrefixReadBack | src/chanmode.c:1333-1361 | a printed prefix in front of a name is read as the set of privileges printed |
| Prefixes.PrefixRoundTrip | src/chanmode.c:1255-1361 | it gives back the flags if and only if each has an order that can be printed and no two share one |
| Njoin.Assemble | src/chanuser.c:353-410 | the line holds the members taken, with their prefixes, at most 32, within n; stops only when full; takes nothing if and only if the first is too long |
| Njoin.Send | src/chanuser.c:462-486 | the lines carry all members in order |
| Njoin.Parse | src/chanuser.c:274-349 | for every text: in order, each word makes the user of its name a member, if it may be one, with the flags of the symbols in front of the name; and the count of these |
| Njoin.WordsMake | src/chanuser.c:295-345 | what the words make, told from where the name begins in each |
| Njoin.TooMuchIsNoRoom | src/chanuser.c:374-382 | a member does not fit exactly if the text with its word and a zero would not; a first one, if not even with one character to spare |
| Njoin.FirstSymbolIsHighest | src/chanuser.c:375-397 | where only the first symbol is written, it is that of the member's highest privilege |
| Njoin.NjoinRoundTrip | src/chanuser.c:274-410 | a line is read as the members it was made of, each with its name and all its privileges, in order |
| Njoin.BurstRoundTrip | src/chanuser.c:274-486 | so is a whole burst |
| Network.CanBeRooted | src/channel.c:299-314 | a network grown link by link can be hung up at any of its servers: each other one is reached through a nearer neighbour, each link used one way |
| Flooding.RunsAreOrderly | src/channel.c:299-314 | in every run each server is reached through the link towards the origin, and what is on its way is exactly the frontier of those reached |
| Flooding.FloodReachesEachOnce | src/channel.c:299-314 | in every interleaving: no server gets a message twice, the origin never; it is over after exactly N - 1 deliveries, not before, and then every other server has got it once |
| Flooding.DirectionCheckDropsNothing | src/lclient.c:890-913 | once the origin was made known by a flood, the direction check drops no message of it |
| Flooding.DirectionCheckEndsLoops | src/lclient.c:890-913 | whatever loops the links form, with sources that lead to the origin the check lets a message over each link at most once in each direction |
| Flooding.LoopsWithoutCheck | src/lclient.c:890-913 | without it a message goes round three linked servers for ever |
| ServerSend.SendAll | src/server.c:353-384 | the connections that pass the filter, in order |
| ServerSend.SendsToOne | src/server.c:357-383 | one connection gets the message exactly if it is another server's, not the one left out, usable, and has all capabilities wanted and none of the others |
| ServerSend.SendsInTurn | src/server.c:353-384 | and more of them in turn |
| ServerSend.FormsPartition | src/channel.c:302-308 | of the CAP_UID and the non-CAP_UID message each link gets exactly one |
| ServerSend.PairForwards | src/channel.c:299-314 | the two sends of a server together are the forwarding of the flood: one message over each link but the one of arrival |
| ServerSend.Marks.SendToMembers | src/server.c:386-412 | with serial marks that never exceed the counter: each connection once, in order of its first member |
| ServerSend.OnceReachesEach | src/server.c:386-412 | exactly the connections that lead to a remote member and pass get the message, each once |
| ServerSend.OnceInOrder | src/server.c:386-412 | in the order of their first members |
| World.WithoutTwice | src/server.c:943-989 | taking servers and users away in two steps is taking them away at once, for trees, memberships and channels |
| World.WithoutStaysValid | src/server.c:943-989 | what is severed from a valid world leaves a valid one |
| Netsplit.Server.Leave | src/chanuser.c:187-207 | one membership ends in the member list, the local or remote one and the user's; an empty channel goes |
| Netsplit.Server.LeaveEach | src/server.c:960-966 | the loop over a user's channels |
| Netsplit.Server.RemoveUser | src/server.c:949-969 | a user off all its channels and deleted: exactly the world without it |
| Netsplit.Server.RemoveServer | src/client.c:498-534 | a server without dependents deleted: exactly the world without it |
| Netsplit.Server.SplitUsers | src/server.c:949-969 | the loop over a server's users |
| Netsplit.Server.Split | src/server.c:943-989 | ends, and leaves exactly the world without the proper descendants and the users at or below the server |
| Netsplit.SplitKeepsValid | src/server.c:943-989 | the tree and the memberships (chanusers split into local and remote, user.channels their inverse) are valid afterwards |
| Netsplit.ServersAfterSplit | src/server.c:972-988 | the servers left are those not below, each where it hung |
| Netsplit.UsersAfterSplit | src/server.c:949-970 | the users left are those not at or below, each with all its channels |
| Netsplit.RoomsAfterSplit | src/server.c:960-966 | the channels left are those with a member left or with none before; the members left keep their order |
| Netsplit.SplitDropsPersistent | src/server.c:964-965 | a +P channel that loses its last member in a split goes, though it stays when the same users exit (src/client.c:907-908) |
| Lifecycle.EndingsDiffer | modules/msg/m_part.c:152-192 | the last member of a channel leaves: by a PART here the channel stays exactly if it has +P, by the PART of a user elsewhere it goes, and a KICK (src/chanuser.c:879) leaves it empty |
| Lifecycle.JoinIsExact | src/channel.c:487-540 | a join adds the user at the end of the member list and the local or the remote one (src/chanuser.c:108-133), and the channel to the user's; a channel is made if need be, without +P; a member's join does nothing |
| Lifecycle.LeaveIsExact | src/chanuser.c:187-207 | a member that leaves goes from both lists, the others in order; the channel goes exactly with its last member, if that one parts elsewhere, or here and it has no +P |
| Lifecycle.ExitIsExact | src/client.c:899-909 | an exit takes the user from each of its channels; those it was alone on go unless they have +P |
| Lifecycle.ArrivalIsExact | src/client.c:339-456 | what arrives hangs where it says, last in the list there |
| Lifecycle.PersistsIsExact | modules/chanmode/cm_persistent.c:51-60 | +P and -P change nothing but that |
| Lifecycle.StepKeepsValid | src/client.c:339-456 | arrivals, joins, parts, kicks, changes of +P, exits and splits each keep the world valid |
| Lifecycle.RunsKeepValid | src/chanuser.c:108-133 | so after every run the servers form a tree mirrored by the dependent lists, memberships are consistent, and each server has the connection that leads towards it |
| Burst.SourceIsSide | src/server.c:832-834 | a server's connection is the neighbour's exactly if it hangs at or below the neighbour |
| Burst.IntroducesTold | src/server.c:832-834 | the test lets through exactly the servers not on the neighbour's side |
| Burst.IntroduceOne | src/server.c:827-852 | one server is told of, or passed over |
| Burst.Introduce | src/server.c:827-856 | all below a server are told of, each once and after its uplink, but for the neighbour's side |
| Burst.BurstUser | src/client.c:1128-1165 | a user is told of unless marked, after its server |
| Burst.BurstChannel | src/channel.c:394-432 | first the members not told of yet, then the NJOIN that names them |
| Burst.ServerBurst | src/server.c:889-939 | in every valid world, so after every run: the whole trace is causal and complete, every server, user and channel once, each after all it refers to; marks never exceed the counter |
| Burst.NjoinNamesUsersOnly | src/client.c:1130-1132 | an NJOIN names only users told of if and only if no member is a service |
| DnsCache.Cache.constructor | lib/servauth/cache.c:250-264 | an empty cache |
| DnsCache.Cache.FindOldest | lib/servauth/cache.c:85-108 | the first of the oldest entries of a status, or none |
| DnsCache.Cache.FindNew | lib/servauth/cache.c:169-190 | a free slot, else the oldest forward entry, else the oldest reverse one |
| DnsCache.Cache.PickReverse | lib/servauth/cache.c:362-381 | found if and only if the address is kept, with its name; it counts as asked for |
| DnsCache.Cache.Put | lib/servauth/cache.c:301-317 | after a miss: the address is kept from now on, in place of the one asked for longest ago if the cache is full |
| DnsCache.Cache.Write | lib/servauth/cache.c:301-317 | writing the right slot at a later time is one question more |
| DnsCache.Cache.Ask | lib/servauth/cache.c:301-381 | a question hits if and only if the address was asked for and fewer than N others were since, and then gives what was found at its last miss; else what is found now; up to 63 characters of it |
| DnsCache.KeepsMostRecent | lib/servauth/cache.c:169-190 | what is kept is the first N of all addresses by last question |
| DnsCache.KeptIffRecent | lib/servauth/cache.c:169-190 | an address is kept if and only if it was asked for and fewer than N others were since |
| DnsCache.StoredIsLastMiss | lib/servauth/cache.c:301-381 | the name kept for an address is what was found at the last question for it that missed, up to 63 characters |
| DnsCache.Touched | lib/servauth/cache.c:301-381 | the slots stay in step with the list of most recent addresses: one slot each, times falling |
| UserModes.ChangeAdd | src/usermode.c:223-258 | the change of the same mode taken out, the new one last |
| UserModes.ParseOne | src/usermode.c:315-386 | the loop over one argument, against the function of requests |
| UserModes.Parse | src/usermode.c:280-390 | a change is kept if and only if some position of the arguments, read one behind the other, holds its letter, the last sign in front of it is its sign (+ if there is none), and it alters the user's mode; each once, in the order in which they are asked for last |
| UserModes.RequestsAnswer | src/usermode.c:303-356 | the same of the function of requests |
| UserModes.KeptAreFlips | src/usermode.c:280-390 | at most one change for each mode, and one if and only if the opposite of what it is was asked for |
| UserModes.OppositeDecides | src/usermode.c:343-356 | a request for the opposite decides whatever is asked for behind it; the last request decides if and only if it is one, or none was |
| UserModes.Apply | src/usermode.c:465-507 | handlers, bits and lists, change by change |
| UserModes.ApplyIsExact | src/usermode.c:465-507 | of changes of different modes, those no handler refuses are kept and make their bits as they say; no other bit changes, nor the list of another mode |
| UserModes.RelistKeepsListed | src/usermode.c:365-414 | a flipped mode leaves its list right for the user, and as it was for all others |
| UserModes.ApplyKeepsIndexed | src/usermode.c:465-507 | changes that each flip a different mode keep every list naming exactly its users, once each |
| UserModes.AnyRequestKeepsIndexed | src/usermode.c:280-507 | so does parsing and applying whatever a user asks for |

## Left out

- Sockets, timers, SSL, logging, printf formatting, hooks, module loading and configuration: input and output, or code that decides nothing modelled here. The numeric replies to a client are left out with them.
- `lib/servauth/userdb.c`, `auth.c`, `proxy.c`, `query.c`, `control.c`: database and network plumbing.
- Division.UDivMod: not for d == 0, where the code divides by zero on purpose (lib/src/divdi3.c:81, 127).
- Division.DivDi3: signed overflow, undefined in C, is taken as wrap-around; this only matters for INT64_MIN / -1.
- Division.ModDi3: for a dividend of INT64_MIN the same wrap-around of the unary minus is assumed.
- The word primitives of the division are the portable ones of lib/include/libchaos/divdi3.h or, for division without normalising and for counting zeros, their documented meaning (47-89); the assembler of each processor is left out.
- DnsDotted.DottedToWire: text without a backslash only (the escapes of lib/servauth/dns.c:595-621 are left out), and the caller's buffer beyond the name is not described, which the code copies from an uninitialised array.
- DnsDotted.WireToDotted: when the text does not fit, the zero is written at index n; the contract says so, and a caller has to offer n + 1 octets.
- DnsDotted.AddressToWire: IPv4 only.
- DnsReplies.ExtractAddress: IPv4 only.
- DnsPackets.Resolver.Irrelevant: where the code reads on behind the copy of a name, in a local array it has not written, its answer is called Unspecified. DnsReplies.ExtractName: the same.
- DnsPackets.Resolver.TransmitStart: the ID is drawn later, at random.
- DnsPackets.OwnQueryAnswers: names without a zero octet in a label; the question for another would be Unspecified.
- MaskLists.AddIsAllOrNothing: where matching composes through the new mask; MaskLists.BouncedAddUntouched says for any matching when a bounced + is harmless, and the failures are stated beside.
- MaskCover.FillingsDecide: about what masks mean; what str_match finds of it is stated in MaskCover.TestedStaysFound, MaskCover.AddMissesNothingIff and the module BanCheck.
- BanCheck.PeopleStayBannedIff: for masks on which 512 turns suffice; BanCheck.NobodyIsMissedIff is for all, with more people to be asked.
- BanCheck.MatchBan: a client's host and user name are whatever they are; that they are made of legal characters within the limits is what `Legal` says of a person. chanmode_match_amode and chanmode_match_deny are alike and left out.
- Replication.PassReplicates: the order of masks within a list may differ on the peer, because it depends on who set them; masks that do not match themselves, or that are rewritten differently a second time, are shut out. How these diverge is stated for a -, for a refused + and, where the list's masks match themselves, for a + that got through.
- ModeDelivery.CoveringMaskIsLost: for 4 to 15 masks covered; with 16 or more the addition begins or joins a later line, of which it may be among the first four.
- KEY and LIMIT modes, hook-specific mode callbacks, chanmode_flags_build, chanmode_args_build and the setter, time and split parts of a ban: not part of replication or decided by hooks.
- ModeLines.Send: every argument at most n - 2 long; a longer one would keep the loop from ending, as the contract of ModeLines.Assemble shows.
- Njoin.Send: every member short enough for a line, for the same reason.
- Tokens.Tokenize: words are cut out of the text; that the code writes zeros into it is not described.
- Njoin.Parse: a user named twice in one line would be linked twice by the code, since membership is looked up before the line is linked; here the lookup is one function for the whole burst.
- Timestamps of channels and users, and the receivers of NMODE, NJOIN and BURST beyond the parsing of their arguments.
- Flooding.FloodReachesEachOnce: links do not fail during a flood, and each carries a message once it was sent.
- Pointer-level dlink nodes, heaps and reference counts: lists are sequences. `Netsplit.Server` holds its maps and lists in one value, and the burst passes its trace and the serial marks along as values, so aliasing is not described. Where the code reads a member's channel after the member was freed (src/server.c:962-965, src/client.c:905-908), the model reads it before.
- Lifecycle.RunsKeepValid: who may part or kick; a channel's modes but +P, invitations and backlog are not part of the world, nor are services, which the code lists apart.
- Burst.ServerBurst: the channel's modes and topic that follow its NJOIN are left out, and an NJOIN is one event, whatever lines `Njoin.Send` makes of it.
- DnsCache.Cache.Put: only behind a miss, at strictly later times, and reverse entries only; the code's clock counts seconds, and with equal times the first slot goes first (DnsCache.Cache.FindOldest). The entry pinned at start with the highest time (lib/servauth/servauth.c:239) is left out; a hit on it ends the pinning.
- UserModes.Parse: modes without arguments.
- UserModes.Apply: without LINKALL, whose functions link regardless of the bit (src/usermode.c:418-453).
- The random generators, nick changes and the name list sent to users.
