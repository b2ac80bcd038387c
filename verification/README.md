# A verified model of the SMS gateway's core

The gateway takes short messages from SMPP connections, limits their rate, looks up where they go and
passes them on. This project models the parts of it that are easy to get subtly wrong and proves what
they are for. Code that changes things step by step is modelled by classes and loops of the same shape;
each method is proved against a specification, and the specifications are tied to plain statements by
lemmas. `dafny verify dfyconfig.toml` checks everything.

| file | component | main results |
|---|---|---|
| `BitSet.dfy` | `src/routing/smpp/bit_set.cpp` | the packed words are a set of naturals; every operation is the set operation of that name, across word boundaries |
| `TrieMatcher.dfy` | `src/routing/smpp/trie_matcher.cpp` | the heap trie answers a query with exactly the tags of the matching patterns; one insertion adds one entry and changes nothing else |
| `PrefixRuleMatcher.dfy` | `src/routing/smpp/prefix_rule_matcher.cpp` | the shift-and loop over (rule, field) bits returns, in ascending order, exactly the rules that match in every field |
| `RoutingMatcher.dfy` | `src/routing/smpp/routing_matcher.cpp` | after any additions and removals, failed ones included, a lookup returns the target of the newest live matching route, and "" iff there is none |
| `FlowControl.dfy` | `src/libs/flow_control.hpp` | rate bounds of three limiters over every run and every configuration; the credit ring refines a queue of seconds, in 32-bit arithmetic |
| `Serialization.dfy` | `libs/smpp/common/serialization.hpp` and the parameter types | round trips for fields, optional parameters, any schema, and submit_sm, each with its exact condition (SMPP v3.4, sections 3.2.4 and 4.4.1) |
| `Framing.dfy` | header and receive buffer of the session | header round trip in both directions, unambiguous framing (SMPP v3.4, section 3.2), compaction that keeps the queue |
| `Session.dfy` | `libs/smpp/net/session.hpp` | nothing sent or received is lost, doubled or reordered; two connected sessions agree on every frame for any split of the stream |
| `RouteMapper.dfy` | `src/routing/pinex/route_mapper.h` | the trie refines a map from prefixes with longest-prefix lookup, and stays canonical under pruning |
| `ShortMessage.dfy` | `libs/smpp/utility/short_message.hpp` | packing and unpacking are inverse under an exact condition (3GPP TS 23.040, section 9.2.3.24) |
| `Expirator.dfy` | `src/libs/expirator.hpp` | an entry fires once, at its tick; in any run every entry ends in exactly one way |
| `SegmentedLogger.dfy` | `src/libs/segmented_logger.hpp` | files and buffer together are the log, in order; no file exceeds its limit |
| `Sequences.dfy` | | reversal, which both routing tables use |

Time is a parameter that does not go back, network and timers are step methods, configuration is fixed
while an object lives. An exception of the original is a `Result`, or a first result `ok` that is false.

## Where the code differs from what one would expect

The model follows the code, and these are theorems here.

- `find_target` compares priorities with a bound that it never raises. The newest match wins, whatever its
  priority (`Routes.NewestMatchDecides`; `Routes.PriorityIgnored` is a table where the wrong route answers).
  Among routes to different targets the priorities are kept exactly if the newest match has a higher one
  than every other match (`Routes.PrioritiesKeptIff`).
- A rule number is spent by every addition, including the ones that fail on a bad pattern, and is never
  reused; a table can therefore take 1000 additions in its life, not hold 1000 routes.
- An empty query matches no pattern, and the query `*` matches the pattern `*` alone
  (`Patterns.PatternMatches`).
- The fixed-flow limiter answers "no wait" without recording anything when it is called exactly at the end
  of the wait it asked for (clauses of `CheckFixedFlow`). Callers are told to go on at most max times in
  every second exactly if no call ever falls there (`RateKeptIff`); `CallersOnTheEdge` is a run in which
  any number of callers pass in one second at a rate of one.
- The credit limiter starts one second ahead of its ring and keeps that lead until an idle gap as long as
  the window, which takes it away for good. Without the lead a window of one second is refused everything
  in the second after a full one (a clause of `CheckCredit`).
- The credit is kept modulo 2^32. It never exceeds what ring and lead hold together, so the rate bound
  stays, but it equals that exactly while it fits 32 bits (`CreditIsRing`). After an idle window the first
  caller is turned away exactly if what the window leaves after settling the last second is a multiple of
  2^32, with or without a loan (`CreditQueues.LeftAfterIdle` and the last clause of `CheckCredit`;
  `IdleCallerTurnedAway` is such a run).
- A frame is received however the stream is cut exactly if it is no longer than capacity minus read size
  plus one byte: 1 MiB - 64 KiB + 1. A longer one fails if it is cut where the next read finds no room
  (`Sessions.ReceivedHoweverCut`; `OnReceived` says when a read fails).
- Reverse lookup never reads the first character of a number but counts it for the length limit. The match
  is the same as with it exactly if all of the number backwards is no route (`PrefixMaps.FirstDigitUnread`).
- A longest match that fails the length limit is not replaced by a shorter one (`PrefixMaps.NoFallback`). A
  search with fallback would answer the same exactly if nothing matches, the longest match admits the
  number, or there is nothing to fall back on (`PrefixMaps.FallbackIff`).
- Clearing all routes keeps the route of the empty prefix.
- A concatenation reference is read back through a signed character. It survives exactly when its low byte
  is below 0x80 or its high byte is 0xFF.
- Of a registered_delivery byte only five bits survive a round trip.
- The log does not number its files anew on a day that starts without an open file. Opening the file for
  the first record moves the date to the new day before the dates are compared for the numbers. Unless
  that record fills the buffer, the new file is closed at once, with as many of the buffered records as
  it takes (clauses of `SegmentedLogger.Record`).
- Time-outs of 2^32 periods and more are cut to 32 bits (`Deadlines.AddedFiresOnce`).

## Model

| member | source | states |
|---|---|---|
| Bits.BitAnd | src/routing/smpp/bit_set.cpp:113 | a bit of the conjunction of two words is set iff it is set in both |
| Bits.BitOr | src/routing/smpp/bit_set.cpp:123 | a bit of the disjunction of two words is set iff it is set in one of them |
| Bits.BitXor | src/routing/smpp/bit_set.cpp:243 | a bit of the exclusive or is set iff it is set in exactly one word |
| Bits.BitNot | src/routing/smpp/bit_set.cpp:163 | complement flips each of the 64 bits |
| Bits.BitTwice | src/routing/smpp/bit_set.cpp:176 | a shift moves every bit up by one and loses the top one |
| Bits.BitOneHot | src/routing/smpp/bit_set.cpp:8-41 | the table of single bits has bit p, and no other, at place p |
| Bits.TopIsBit63 | src/routing/smpp/bit_set.cpp:178 | the carry test sees exactly bit 63 |
| Bits.AndOneHot | src/routing/smpp/bit_set.cpp:206 | masking with a single bit is non-zero iff that bit is set |
| Bits.AndIsInclusion | src/routing/smpp/bit_set.cpp:148 | the mask comparison of one word is inclusion of its bits |
| Bits.BitCleared | src/routing/smpp/bit_set.cpp:243 | the exclusive-or step of the enumeration removes the lowest bit and keeps the others |
| BitSets.CountTrailingZeros | src/routing/smpp/bit_set.cpp:241 | finds the lowest set bit of a non-zero word |
| BitSets.BitSet.constructor | src/routing/smpp/bit_set.cpp:84-89 | a new set is empty and has a word for every started 64 elements |
| BitSets.BitSet.IntersectWith | src/routing/smpp/bit_set.cpp:107-115 | the result is the intersection |
| BitSets.BitSet.UniteWith | src/routing/smpp/bit_set.cpp:117-125 | the result is the union |
| BitSets.BitSet.Equals | src/routing/smpp/bit_set.cpp:127-140 | true iff both sets have the same elements |
| BitSets.BitSet.CheckSetFlags | src/routing/smpp/bit_set.cpp:142-155 | true iff the argument is included |
| BitSets.BitSet.CheckUnsetFlags | src/routing/smpp/bit_set.cpp:157-170 | true iff the argument is disjoint |
| BitSets.ShiftedBit | src/routing/smpp/bit_set.cpp:172-185 | word-wise shifting with carry moves element p-1 to p, across word boundaries, and drops only the very top bit |
| BitSets.BitSet.ShiftRight | src/routing/smpp/bit_set.cpp:172-185 | every element grows by one, only the last bit of the storage is lost |
| BitSets.BitSet.Set | src/routing/smpp/bit_set.cpp:187-200 | adds or removes one element and keeps the others |
| BitSets.BitSet.Get | src/routing/smpp/bit_set.cpp:202-207 | membership |
| BitSets.BitSet.GetSetBitsIndices | src/routing/smpp/bit_set.cpp:227-262 | the elements, strictly ascending and complete; the loop that clears the lowest bit terminates |
| BitSets.BitSet.AppendWord | src/routing/smpp/bit_set.cpp:237-244 | appends exactly the elements of one word, in order; terminates |
| BitSets.LowestBit | src/routing/smpp/bit_set.cpp:241-242 | the lowest bit left is the next element, with none in between |
| BitSets.NextBits | src/routing/smpp/bit_set.cpp:243 | clearing it leaves exactly the elements after it |
| TrieMatchers.BuildAlphabetsMap | src/routing/smpp/trie_matcher.cpp:7-16 | numbers the printable characters other than digits and capitals below 59, all others get -1 |
| TrieMatchers.SlotsDiffer | src/routing/smpp/trie_matcher.cpp:7-16 | two usable characters never share a child slot |
| TrieMatchers.Node.GetChild | src/routing/smpp/trie_matcher.cpp:191-205 | the child for a character, read from the array that the character belongs to |
| TrieMatchers.Node.AddChild | src/routing/smpp/trie_matcher.cpp:116-152 | one new child, all other children and the marks stay, whether or not the table had to be allocated |
| TrieMatchers.TrieMatcher.constructor | src/routing/smpp/trie_matcher.cpp:3-17 | a well-formed trie without entries |
| TrieMatchers.TrieMatcher.InsertNode | src/routing/smpp/trie_matcher.cpp:112-174 | succeeds iff every remaining character is usable; then exactly one entry is added, else none, and the trie stays well formed |
| TrieMatchers.TrieMatcher.AddWord | src/routing/smpp/trie_matcher.cpp:24-41 | the same for a whole word, the empty one included |
| TrieMatchers.TrieMatcher.AddEntry | src/routing/smpp/trie_matcher.cpp:43-53 | stores a pattern: a trailing star means prefix |
| TrieMatchers.TrieMatcher.TraceNodes | src/routing/smpp/trie_matcher.cpp:176-210 | adds exactly the tags of stored prefixes met from here on and of the complete word; fails iff the walk meets an unusable character |
| TrieMatchers.TrieMatcher.NothingBelow | src/routing/smpp/trie_matcher.cpp:178-181 | where the walk finds no node, no longer word is stored |
| TrieMatchers.TrieMatcher.Match | src/routing/smpp/trie_matcher.cpp:55-84 | the set of exactly the tags whose entries answer the query, with the special cases of the star and the empty query |
| Patterns.UsableCharacters | src/routing/smpp/trie_matcher.cpp:10-16 | the characters of patterns are the printable ones from space to tilde but capitals |
| Patterns.SmallLetters | src/routing/smpp/trie_matcher.cpp:59-65 | folding turns each capital into its small letter and changes nothing else |
| Patterns.PrefixAccepts | src/routing/smpp/trie_matcher.cpp:45-48 | a trailing star accepts exactly the queries that begin, folded, as the pattern does |
| Patterns.SpecialQueries | src/routing/smpp/trie_matcher.cpp:69-77 | the star asks for the star alone, and nothing matches the empty query |
| Patterns.OtherTagsUnaffected | src/routing/smpp/trie_matcher.cpp:24-41 | one more entry changes no answer for other tags |
| Patterns.AnswersArePatterns | src/routing/smpp/trie_matcher.cpp:55-84 | a tag answers a query iff one of its patterns matches it, stated on the patterns alone |
| Patterns.AnswerHasPattern | src/routing/smpp/trie_matcher.cpp:69-81 | every answer comes from a pattern that matches |
| Patterns.PatternAnswers | src/routing/smpp/trie_matcher.cpp:69-81 | every matching pattern answers |
| Rules.TagUnique | src/routing/smpp/prefix_rule_matcher.cpp:35 | a tag belongs to one field of one rule |
| Rules.LastTag | src/routing/smpp/prefix_rule_matcher.cpp:53 | the bit a matched rule leaves is the tag of its last field, and the division gives the rule number back |
| Rules.GoodStored | src/routing/smpp/prefix_rule_matcher.cpp:23-37 | a rule of usable patterns is stored whole |
| Rules.BadStored | src/routing/smpp/prefix_rule_matcher.cpp:23-37 | a rule with a bad pattern leaves exactly the patterns before the first one |
| PrefixRuleMatchers.BuildMask | src/routing/smpp/prefix_rule_matcher.cpp:12-15 | the mask holds exactly the last tags of the rules |
| PrefixRuleMatchers.ShiftAndStep | src/routing/smpp/prefix_rule_matcher.cpp:64-68 | after field i, bit p is set iff p >= i and the tags p-i to p match the fields 0 to i, kept by one shift and one intersection |
| PrefixRuleMatchers.MaskedBitIsRule | src/routing/smpp/prefix_rule_matcher.cpp:70 | a bit under the mask means that its rule matches in every field; bits carried over from another rule never stand there |
| PrefixRuleMatchers.RulesGrow | src/routing/smpp/prefix_rule_matcher.cpp:21 | a fresh rule number has no stored patterns |
| PrefixRuleMatchers.RulesLearn | src/routing/smpp/prefix_rule_matcher.cpp:35 | one more pattern changes one field of one rule |
| PrefixRuleMatchers.HasNoUpper | src/routing/smpp/prefix_rule_matcher.cpp:27-33 | finds a capital letter; a pattern with one could not be stored anyway |
| PrefixRuleMatchers.PrefixRuleMatcher.constructor | src/routing/smpp/prefix_rule_matcher.cpp:6-16 | a matcher without rules |
| PrefixRuleMatchers.PrefixRuleMatcher.SetRule | src/routing/smpp/prefix_rule_matcher.cpp:18-40 | takes the next number; succeeds iff every pattern can be stored; otherwise the number is spent and exactly the patterns before the first bad one remain |
| PrefixRuleMatchers.PrefixRuleMatcher.Narrow | src/routing/smpp/prefix_rule_matcher.cpp:66-67 | one turn carries the meaning of the bits from field i-1 to field i; fails iff the field cannot be read |
| PrefixRuleMatchers.PrefixRuleMatcher.MatchGetBitset | src/routing/smpp/prefix_rule_matcher.cpp:59-72 | the masked set of positions at which all fields match in a row; fails iff some field cannot be read |
| PrefixRuleMatchers.ReadRules | src/routing/smpp/prefix_rule_matcher.cpp:51-54 | turns positions into rule numbers, one for one and in order |
| PrefixRuleMatchers.MatchedRules | src/routing/smpp/prefix_rule_matcher.cpp:48-56 | the numbers read from the masked bits are those of the matching rules |
| PrefixRuleMatchers.PrefixRuleMatcher.Match | src/routing/smpp/prefix_rule_matcher.cpp:42-57 | strictly ascending, exactly the rules of which every field has a pattern that matches |
| Sequences.Reversed | src/routing/smpp/routing_matcher.cpp:40-43 | character k of the reversed destination is character n-1-k of the destination |
| Routes.Normalise | src/routing/smpp/routing_matcher.h:13-76 | no field of a normalised route is empty, the sender is the given one in lower case, the priority fits 16 bits, given addresses and target are kept, the three packet kinds become their numbers and others stay |
| Routes.NormaliseSettles | src/routing/smpp/routing_matcher.h:13-76 | a second normalisation changes nothing, and senders that differ in case alone give the same route |
| Routes.KindSelects | src/routing/smpp/routing_matcher.h:42-68 | a route for one packet kind matches exactly the records of that kind that the same route without a kind matches, and no record of another kind |
| Routes.StarAccepts | src/routing/smpp/routing_matcher.h:21-47 | the star that stands for an empty field accepts every field but the empty one |
| Routes.WholeWord | src/routing/smpp/trie_matcher.cpp:49-52 | a pattern without a trailing star accepts itself alone |
| Routes.NewestMatchDecides | src/routing/smpp/routing_matcher.cpp:68-79 | the newest matching route gives the answer, whatever the priorities |
| Routes.FavouriteIsHighest | src/routing/smpp/routing_matcher.cpp:71-77 | what a comparison with a raised bound would choose: the oldest match of highest priority |
| Routes.PrioritiesKeptIff | src/routing/smpp/routing_matcher.cpp:68-79 | among routes to different targets, the answer is that choice iff the newest match has a higher priority than every other match |
| Routes.PriorityIgnored | src/routing/smpp/routing_matcher.cpp:68-79 | a table in which the route of lower priority answers every record |
| Routes.EmptyIffNoMatch | src/routing/smpp/routing_matcher.cpp:68-79 | the answer is "" iff no live route matches, otherwise the target of a live route that does |
| Routes.WithoutKeeps | src/routing/smpp/routing_matcher.cpp:104-131 | removal drops the routes with the id and no other |
| Routes.AddThenRemove | src/routing/smpp/routing_matcher.cpp:82-131 | adding a route with a new id and removing it is no change |
| Routes.RemovalOfOthers | src/routing/smpp/routing_matcher.cpp:104-131 | removing a route that does not match a record leaves its answer as it was |
| RoutingMatchers.TablesBiject | src/routing/smpp/routing_matcher.cpp:92-93 | the two id maps are in bijection and name only stored rules |
| RoutingMatchers.TablesAfterAdd | src/routing/smpp/routing_matcher.cpp:91-93 | an addition keeps maps, stored rules and live routes in agreement |
| RoutingMatchers.TablesAfterFailure | src/routing/smpp/routing_matcher.cpp:95-99 | a half-stored rule keeps them in agreement |
| RoutingMatchers.TablesAfterRemove | src/routing/smpp/routing_matcher.cpp:108-125 | so does a removal, whose rule stays in the matcher |
| RoutingMatchers.CandidatesStep | src/routing/smpp/routing_matcher.cpp:53-66 | stale rule numbers are passed over; the last target collected is that of the newest live route seen |
| RoutingMatchers.LastCandidate | src/routing/smpp/routing_matcher.cpp:68-79 | the last target collected is the answer specified for the live routes |
| RoutingMatchers.RoutingMatcher.AddRule | src/routing/smpp/routing_matcher.cpp:82-102 | true iff the id is free and every pattern can be stored; then the route joins as the newest one, else nothing live changes; a rule number is spent iff the id was free |
| RoutingMatchers.RoutingMatcher.RemoveRule | src/routing/smpp/routing_matcher.cpp:104-131 | true iff the id is live; removes that route alone, the search for its slot terminates |
| RoutingMatchers.ServesIsMatch | src/routing/smpp/routing_matcher.cpp:38-51 | the matcher's record is matched iff sender, source and packet kind are accepted by the patterns of the same name, and the destination, read backwards when so configured, by its own |
| RoutingMatchers.LastTargetAnswers | src/routing/smpp/routing_matcher.cpp:38-79 | no target iff no live route serves the four arguments, otherwise that of the newest one that does |
| RoutingMatchers.RoutingMatcher.ReadableRecord | src/routing/smpp/routing_matcher.cpp:38-51 | the record can be read iff each of the four arguments can |
| RoutingMatchers.RoutingMatcher.FindTarget | src/routing/smpp/routing_matcher.cpp:31-80 | the target of the newest live route that serves the four arguments, and "" iff there is none; fails iff an argument cannot be read |
| Arithmetic.WrapAdd | src/libs/flow_control.hpp:220-237 | it does not matter when a 32-bit sum wraps |
| Arithmetic.WrapKeeps | src/libs/flow_control.hpp:208-237 | a wrapped value never exceeds the plain one, and equals it iff that fits |
| Arithmetic.CountIsSpan | src/libs/flow_control.hpp:153-165 | the entries of an ascending log within an interval stand together |
| CreditQueues.DrainKeeps | src/libs/flow_control.hpp:248-273 | a loan the ring covers is taken from it in full |
| CreditQueues.DrainOldestFirst | src/libs/flow_control.hpp:248-273 | a second is touched only when all older ones are used up |
| CreditQueues.DrainStep | src/libs/flow_control.hpp:255-272 | one step of the walk is one step of the queue's repayment |
| CreditQueues.QueuePush | src/libs/flow_control.hpp:237-239 | overwriting the current slot and moving on takes the oldest second out and puts a new one in |
| CreditQueues.SumQueue | src/libs/flow_control.hpp:233-278 | where the ring begins does not change its sum |
| CreditQueues.IdledSum | src/libs/flow_control.hpp:206-230 | idle seconds never lower the ring's sum and add at most a full second each |
| CreditQueues.SettledSum | src/libs/flow_control.hpp:233-283 | what settling a second makes of the ring's sum, with and without a loan |
| CreditQueues.RolledCredit | src/libs/flow_control.hpp:204-286 | a change of second adds at most one full second of credit for each second that passed |
| CreditQueues.RolledIsBooked | src/libs/flow_control.hpp:204-286 | after any gap, entry by entry: older seconds move up unchanged, idle ones are full, the settled one leaves what it did not use, a loan is taken from the oldest first |
| CreditQueues.IdleWindow | src/libs/flow_control.hpp:206-283 | what is left of a full ring after settling a second with any number of packets |
| RateBounds.PurgeIsSuffix | src/libs/flow_control.hpp:392-407 | the purge drops exactly the leading entries older than a second |
| RateBounds.PromiseKept | src/libs/flow_control.hpp:153-165 | a call strictly later than the wait it was given finds room |
| RateBounds.FullSecond | src/libs/flow_control.hpp:163-164 | when a call falls exactly on the end of a wait, the second before it holds max recorded packets |
| RateBounds.FixedPurged | src/libs/flow_control.hpp:392-407 | the log stays the recent end of all recorded admissions |
| RateBounds.FixedPushed | src/libs/flow_control.hpp:156-161 | any max+1 recorded admissions in a row still span more than a second after one more |
| RateBounds.FixedRate | src/libs/flow_control.hpp:153-165 | every interval of one second holds at most max recorded admissions |
| RateBounds.CreditRate | src/libs/flow_control.hpp:186-305 | n seconds in a row hold at most (n + W) * max admissions |
| RateBounds.LimitRate | src/libs/flow_control.hpp:311-338 | a span of W-1 seconds of real time holds no more admissions than the window's limit |
| RateBounds.AllowanceRolls | src/libs/flow_control.hpp:204-286 | the token-bucket invariant survives the passing of time |
| RateBounds.AllowanceSpent | src/libs/flow_control.hpp:294-305 | and one more admission |
| RateBounds.StillCounted | src/libs/flow_control.hpp:315-327 | an admission of the last W-1 seconds is still in the buckets |
| RateBounds.WindowGrows | src/libs/flow_control.hpp:329-337 | the window bound survives one more admission although elapsed seconds are truncated |
| Buckets.TurnedAt | src/libs/flow_control.hpp:317-322 | after k turns a bucket is the one k places further on, or empty |
| Buckets.RecentTurns | src/libs/flow_control.hpp:317-322 | after a turn the buckets still count exactly the admissions of the last W turns |
| Buckets.RecentCounts | src/libs/flow_control.hpp:334-335 | and after one more admission |
| FlowControls.FlowControl.constructor | src/libs/flow_control.hpp:40-126 | all three limiters start in their invariants |
| FlowControls.FlowControl.RemovePastData | src/libs/flow_control.hpp:392-407 | the loop is the purge |
| FlowControls.FlowControl.CheckFixedFlow | src/libs/flow_control.hpp:153-165 | admits and records iff fewer than max entries are recent, otherwise the exact wait, at most a second; the wait is 0 iff recorded or exactly at the boundary |
| FlowControls.FlowControl.FixedBound | src/libs/flow_control.hpp:153-165 | in every reachable state every second holds at most max recorded packets |
| FlowControls.FlowControl.PassedBound | src/libs/flow_control.hpp:153-165 | in every reachable state every second holds at most max calls answered 0, plus those exactly at the end of a wait |
| FlowControls.FlowControl.RateKeptIff | src/libs/flow_control.hpp:153-165 | in every reachable state, no second holds more than max calls answered 0 iff no call fell on the end of a wait |
| FlowControls.CallersOnTheEdge | src/libs/flow_control.hpp:153-165 | a run at a rate of one in which any number of calls within one second are answered 0 |
| FlowControls.FlowControl.RefillAll | src/libs/flow_control.hpp:208-214 | after an idle window the ring is full and the lead is gone |
| FlowControls.FlowControl.RefillOne | src/libs/flow_control.hpp:220-228 | one idle second replaces the oldest; the lead of the credit over the ring is kept |
| FlowControls.FlowControl.RefillSome | src/libs/flow_control.hpp:216-230 | the same for a shorter gap, as a queue |
| FlowControls.FlowControl.FillIdle | src/libs/flow_control.hpp:206-230 | the ring at the moment of settling, for every length of gap; `RolledIsBooked` says what that comes to |
| FlowControls.FlowControl.RepayLoan | src/libs/flow_control.hpp:241-273 | takes the loan from the oldest seconds first and terminates, since the ring covers it |
| FlowControls.FlowControl.Settle | src/libs/flow_control.hpp:233-283 | books the second that ended; credit and ring stay congruent and the lead is kept |
| FlowControls.FlowControl.RollOver | src/libs/flow_control.hpp:204-286 | the ring after a change of second is that of the specification; the lead is lost iff the gap reached the window |
| FlowControls.FlowControl.FirstCall | src/libs/flow_control.hpp:191-203 | one second's credit over an empty ring |
| FlowControls.FlowControl.Enter | src/libs/flow_control.hpp:191-286 | what a call does before it decides, for the first call, the same second and every gap |
| FlowControls.FlowControl.CheckCredit | src/libs/flow_control.hpp:186-305 | admits iff the second's packets are fewer than the credit; the ring after any gap, entry by entry, and the lead; credit minus ring is 0 or max modulo 2^32; after any idle window, when the credit is what is left and when there is none |
| FlowControls.FlowControl.CreditIsRing | src/libs/flow_control.hpp:186-305 | the credit never exceeds ring plus lead, and equals it iff that fits 32 bits |
| FlowControls.FlowControl.CreditBound | src/libs/flow_control.hpp:186-305 | in every reachable state n seconds in a row hold at most (n + W) * max packets |
| FlowControls.IdleCallerTurnedAway | src/libs/flow_control.hpp:206-237 | a run of three calls in which a caller is turned away after an idle window |
| FlowControls.FlowControl.TurnBuckets | src/libs/flow_control.hpp:317-322 | the total stays the sum of the W buckets |
| FlowControls.FlowControl.CheckLimitCredit | src/libs/flow_control.hpp:311-338 | every bucket after the seconds that passed; admits and counts iff the last bucket is below max + slippage and the total below max * W, as 32 bits hold them |
| FlowControls.FlowControl.LimitBound | src/libs/flow_control.hpp:311-338 | in every reachable state a real-time span of W-1 seconds holds at most max * W packets, and fewer iff that does not fit 32 bits |
| Bytes.BigEndian16 | libs/smpp/param/oparam.hpp:43-46 | two bytes, the most significant one first |
| Bytes.BigEndian32 | libs/smpp/net/session.hpp:520-525 | four bytes, the most significant one first |
| Bytes.U16RoundTrip | libs/smpp/param/oparam.hpp:23-46 | a 16-bit number is read back, whatever follows |
| Bytes.U32RoundTrip | libs/smpp/net/session.hpp:506-525 | a 32-bit number is read back |
| Bytes.U32Inverse | libs/smpp/net/session.hpp:506-525 | four bytes read and written again are the same |
| Flags.EsmGroups | libs/smpp/param/esm_class.hpp:41-44 | which bits of the byte are the mode, the type and the network features |
| Flags.DeliveryGroups | libs/smpp/param/registered_delivery.hpp:37-42 | which bits of the byte are the receipt, the acknowledgement and the notification |
| Flags.UdhIsBit6 | libs/smpp/utility/short_message.hpp:120 | a user data header is announced iff bit 6 of esm_class is set |
| Flags.EsmRoundTrip | libs/smpp/param/esm_class.hpp:41-49 | the groups come back from the byte iff each keeps to its bits |
| Flags.EsmInverse | libs/smpp/param/esm_class.hpp:41-49 | every byte survives splitting and joining |
| Flags.DeliveryRoundTrip | libs/smpp/param/registered_delivery.hpp:37-47 | the groups come back from the byte iff each keeps to its bits |
| Flags.DeliveryInverse | libs/smpp/param/registered_delivery.hpp:37-47 | of a byte the low five bits survive |
| Oparams.TlvBytes | libs/smpp/param/oparam.hpp:53-56 | tag, length and value, two bytes each for the first two |
| Oparams.ParseExactly | libs/smpp/param/oparam.hpp:21-39 | bytes parse iff they are such parameters in a row with at most three bytes behind, and into which map |
| Oparams.CollectedIsFirst | libs/smpp/param/oparam.hpp:35 | the map holds the first value of every tag |
| Oparams.PrintedInOrder | libs/smpp/param/oparam.hpp:48-57 | the printed form is all parameters in ascending order of their tags |
| Oparams.ParamsThenStray | libs/smpp/param/oparam.hpp:25-58 | a printed map is read back with up to three bytes behind it |
| Oparams.ParseTlv | libs/smpp/param/oparam.hpp:25-38 | one printed parameter is read back, whatever follows |
| Oparams.ParamsRoundTrip | libs/smpp/param/oparam.hpp:21-58 | every map with values up to 65535 bytes is read back from its printed form |
| Oparams.ParseGives | libs/smpp/param/oparam.hpp:21-39 | what parses has sized values, keeps earlier tags and leaves at most three bytes |
| Oparams.ParseIsStable | libs/smpp/param/oparam.hpp:21-58 | for any bytes that parse, parsing their printed form gives the same map |
| Oparams.FirstTagWins | libs/smpp/param/oparam.hpp:35 | the first of two equal tags counts |
| Oparams.ParseParams | libs/smpp/param/oparam.hpp:21-39 | the loop is the parser of the specification, errors and rest included |
| Oparams.Least | libs/smpp/param/oparam.hpp:48 | the tag that the ordered map gives out first |
| Oparams.PrintSkips | libs/smpp/param/oparam.hpp:48-57 | tags that are not there print nothing |
| Oparams.PrintParams | libs/smpp/param/oparam.hpp:41-58 | appends the parameters in tag order |
| Schemas.FieldRoundTrip | libs/smpp/common/serialization.hpp:13-159 | a printed value of each field kind is read back with the rest untouched iff it has no embedded NUL, fits its length byte and keeps to its bits |
| Schemas.DecExactly | libs/smpp/common/serialization.hpp:13-159 | for each kind of field, the exact bytes that are read as a value, all others being errors |
| Schemas.TrailingBytes | libs/smpp/common/serialization.hpp:210-224 | bytes behind the last field change nothing, up to three if it is the optional parameters |
| Schemas.DecGives | libs/smpp/common/serialization.hpp:13-159 | whatever is read would be accepted and kept by the printer |
| Schemas.SchemaRoundTrip | libs/smpp/common/serialization.hpp:200-224 | for every schema with its optional parameters last: a record within its limits is read back iff every field is faithful |
| Schemas.DecAllGives | libs/smpp/common/serialization.hpp:210-224 | whatever is read from any bytes can be printed again |
| Schemas.ReadingIsStable | libs/smpp/common/serialization.hpp:200-224 | reading, printing and reading again gives what was read first |
| Schemas.FindNul | libs/smpp/common/serialization.hpp:100 | the first NUL, or the end |
| Schemas.SerializeField | libs/smpp/common/serialization.hpp:28-158 | fails iff the string exceeds its limit, leaving the vector alone; else appends the printed value |
| Schemas.DeserializeField | libs/smpp/common/serialization.hpp:15-147 | takes one value off the window as specified, with every error case |
| Schemas.SerializeTo | libs/smpp/common/serialization.hpp:200-208 | fails iff some string exceeds its limit; else appends the record; never touches what was there |
| Schemas.Deserialize | libs/smpp/common/serialization.hpp:210-224 | the fold over the fields is the reader of the specification |
| SubmitSms.RejectedIsTooLong | libs/smpp/pdu/submit_sm.hpp:40-61 | the limits of the six strings of submit_sm |
| SubmitSms.CleanIsFaithful | libs/smpp/pdu/submit_sm.hpp:40-61 | what has to be clean for a submit_sm to survive |
| SubmitSms.FieldsInverse | libs/smpp/pdu/submit_sm.hpp:40-61 | the eighteen fields and the record are the same thing |
| SubmitSms.SubmitRoundTrip | libs/smpp/pdu/submit_sm.hpp:40-61 | an accepted submit_sm is read back iff it is clean; `LayoutOfFields` says as which bytes it travels |
| SubmitSms.LayoutOfFields | libs/smpp/pdu/submit_sm.hpp:40-61 | the bytes of a submit_sm, written out in the order of section 4.4.1 of SMPP v3.4 |
| SubmitSms.LayoutIsRead | libs/smpp/pdu/submit_sm.hpp:40-61 | these bytes are read as that message iff it is clean |
| SubmitSms.Serialize | libs/smpp/common/serialization.hpp:200-208 | rejects exactly the messages with a string over its limit; appends exactly the bytes of the standard, which are read back when clean |
| SubmitSms.Parse | libs/smpp/common/serialization.hpp:210-224 | reads the bytes of the standard as the message they stand for, and only messages that could be sent |
| Framing.HeaderRoundTrip | libs/smpp/net/session.hpp:504-533 | a header is read back, whatever follows |
| Framing.FrameOnWire | libs/smpp/net/session.hpp:447-451 | length, command, status and sequence number in this order, four bytes each, then the body |
| Framing.HeaderInverse | libs/smpp/net/session.hpp:504-533 | sixteen bytes read as a header and written again are the same |
| Framing.FirstOfEncoded | libs/smpp/net/session.hpp:258-279 | a frame is found at the front of the stream, with the rest intact |
| Framing.FirstInverse | libs/smpp/net/session.hpp:258-279 | taking a frame off a buffer and writing it back gives the buffer |
| Framing.EncodedIsFramed | libs/smpp/net/session.hpp:447-451 | what a sender writes is a stream of frames |
| Framing.FramedPrefix | libs/smpp/net/session.hpp:258-266 | so is everything received of it so far |
| Framing.Unambiguous | libs/smpp/net/session.hpp:251-280 | if dispatched frames and queued bytes begin what was sent, the frames are the first ones sent; all of them when no byte is missing |
| FlatBuffers.FlatBuffer.Prepare | libs/smpp/net/detail/flat_buffer.hpp:70-86 | keeps the queue, moved or not; fails iff queue and room exceed the block |
| FlatBuffers.FlatBuffer.MoveToFront | libs/smpp/net/detail/flat_buffer.hpp:80-81 | the overlapping copy keeps the bytes |
| FlatBuffers.FlatBuffer.Commit | libs/smpp/net/detail/flat_buffer.hpp:88-91 | the queue grows by at most what was prepared |
| FlatBuffers.FlatBuffer.Consume | libs/smpp/net/detail/flat_buffer.hpp:93-102 | the front of the queue leaves, or all of it |
| Commands.LogGrows | libs/smpp/net/session.hpp:465-472 | one more queued frame in the books |
| Sessions.Session.constructor | libs/smpp/net/session.hpp:45-63 | a session starts open, paused and empty |
| Sessions.Session.DoSend | libs/smpp/net/session.hpp:474-497 | no byte is lost or reordered; a write under way is left alone |
| Sessions.Session.OnWritten | libs/smpp/net/session.hpp:485-496 | written, writing and pending bytes together stay the accepted frames, and the next write starts iff bytes wait |
| Sessions.Session.OnWriteError | libs/smpp/net/session.hpp:489-490 | the session closes and no invariant is lost |
| Sessions.Session.SendCommand | libs/smpp/net/session.hpp:465-472 | one frame without a body is accepted |
| Sessions.Session.SendImpl | libs/smpp/net/session.hpp:423-454 | accepts the PDU iff the session is open and the body prints; otherwise rolls back to the byte |
| Sessions.Session.SendRequest | libs/smpp/net/session.hpp:130-140 | the same under the next sequence number, which is returned |
| Sessions.NumbersGoRound | libs/smpp/net/session.hpp:201-206 | a sequence number comes back after 0x7FFFFFFF requests and not before |
| Sessions.Session.NextSequenceNumber | libs/smpp/net/session.hpp:201-206 | 1 to 0x7FFFFFFF and round again |
| Sessions.Session.PauseReceiving | libs/smpp/net/session.hpp:152-156 | only a receiving session becomes pending |
| Sessions.Session.ResumeReceiving | libs/smpp/net/session.hpp:158-163 | restarts the loop only from a full pause, so a second read is never started; then it reads unless a handler pauses or there is no room |
| Sessions.Session.HandlerCall | libs/smpp/net/session.hpp:101-163 | the exact effect of a pause, a resume, a send or an unbind made inside a handler |
| Sessions.Session.StartUnbind | libs/smpp/net/session.hpp:101-112 | an open session starts the handshake and sends its command unless forced; another one is left alone |
| Sessions.Session.RunCalls | libs/smpp/net/session.hpp:354-359 | the calls of a handler in order |
| Sessions.Session.DispatchTable | libs/smpp/net/session.hpp:305-421 | by command id: which frames are handed on, which are answered and how, which move the state, and when the application is called |
| Sessions.Session.Answer | libs/smpp/net/session.hpp:311-411 | by command id, exactly the reply due is queued, and the unbind handshake moves the state |
| Sessions.Session.ConsumePdu | libs/smpp/net/session.hpp:305-421 | states, sequence number, queued frames and handed-on frames are those of the dispatch table, for any calls made in the handler; the twenty parsed commands are handed on iff they parse and the session is open |
| Sessions.Session.HandedPrefix | libs/smpp/net/session.hpp:358-420 | what is handed on of the first frames comes first |
| Sessions.Session.ReceiveOne | libs/smpp/net/session.hpp:258-279 | one frame is dispatched with exactly the specified effect, and its bytes leave the queue |
| Sessions.Session.DoReceive | libs/smpp/net/session.hpp:251-303 | dispatches frames, each of them while receiving, until none is complete or a pause is pending, with exactly the specified effect; fails iff it goes on reading and finds no room; otherwise a read is outstanding iff not paused |
| Sessions.Session.OnReceived | libs/smpp/net/session.hpp:288-302 | all invariants and the exact new status for any piece of the stream, frames of any length and any calls; the application gets exactly the known PDUs that parse, in order, while the session is open |
| Sessions.Session.PauseOrRead | libs/smpp/net/session.hpp:282-288 | a pending pause takes effect, otherwise the next read starts iff there is room |
| Sessions.Session.FramesKeepState | libs/smpp/net/session.hpp:305-421 | only frames of the unbind handshake and unbind calls end the open state |
| Sessions.Session.AfterFramesConcat | libs/smpp/net/session.hpp:251-280 | frames can be taken in one go or in two |
| Sessions.Session.QuietRun | libs/smpp/net/session.hpp:251-303 | without calls a receiving session goes on receiving, and stays open unless unbound |
| Sessions.Session.OnReceiveError | libs/smpp/net/session.hpp:292-293 | the session closes and reads no more |
| Sessions.Session.Unbind | libs/smpp/net/session.hpp:101-112 | only an open session starts the handshake; states, number and queue afterwards |
| Sessions.UnfinishedIsShort | libs/smpp/net/session.hpp:265-288 | an unfinished frame of at most 1 MiB - 64 KiB + 1 bytes leaves room for the next read |
| Sessions.ReceivedHoweverCut | libs/smpp/net/session.hpp:265-288 | every cut of a frame leaves room for the next read iff the frame has at most 1 MiB - 64 KiB + 1 bytes |
| Sessions.CutFrame | libs/smpp/net/session.hpp:258-266 | of a frame, only all of it is complete |
| Sessions.AnyPieceIsAcceptable | libs/smpp/net/session.hpp:251-303 | every next piece of what a sender wrote meets the demands of the receiver |
| Sessions.EndToEnd | libs/smpp/net/session.hpp:251-303 | the receiver has dispatched a beginning of the frames the sender accepted, and all of them once all bytes arrived; the same for what its application was handed, all of it if the session is still open |
| Sessions.TakePiece | libs/smpp/net/session.hpp:288-302 | one piece of the stream, and the receiver goes on reading |
| Sessions.Transfer | libs/smpp/net/session.hpp:251-303 | for every way of cutting the stream, a whole transfer dispatches exactly the sender's frames in order; an open receiver stays open and has handed on all that are for its application, unless one frame unbinds |
| Sessions.SendOne | libs/smpp/net/session.hpp:423-497 | a new session puts the frame of one PDU on the wire |
| Sessions.StartReceiver | libs/smpp/net/session.hpp:83-88 | a new session is open and reads |
| Sessions.FrameRun | libs/smpp/net/session.hpp:251-497 | from two new sessions on, a PDU cut into pieces of any size is handed on iff it parses, and nothing else is |
| Sessions.SubmitRun | libs/smpp/net/session.hpp:251-497 | so every clean submit_sm within the size limit reaches the application, and reads back as it was |
| Sessions.SubmitArrives | libs/smpp/net/session.hpp:423-454 | a clean submit_sm is read back from the frame it travelled in, and an open receiver hands it on |
| PrefixMaps.BestLengthIsLongest | src/routing/pinex/route_mapper.h:270-322 | the specified best length is a routed prefix and no longer one is routed |
| PrefixMaps.BestLengthUnique | src/routing/pinex/route_mapper.h:270-322 | these two properties fix it |
| PrefixMaps.NoFallback | src/routing/pinex/route_mapper.h:248-258 | a longest match that fails its length limit hides a shorter one that would pass |
| PrefixMaps.AdmittingIsLongest | src/routing/pinex/route_mapper.h:248-258 | the length of the longest routed beginning whose limit admits the number |
| PrefixMaps.FallbackIff | src/routing/pinex/route_mapper.h:241-268 | when a search with fallback would give the same answer |
| PrefixMaps.FirstDigitUnread | src/routing/pinex/route_mapper.h:285-298 | when leaving out the first character changes the match of a reverse lookup |
| PrefixMaps.LookupFinds | src/routing/pinex/route_mapper.h:241-322 | the destination of the longest route that the number begins with, forwards or from its end without its first digit, if that admits its length |
| PrefixMaps.AllNewIff | src/routing/pinex/route_mapper.h:166-181 | a list is added without a failure iff no prefix has a route or stands in it twice |
| PrefixMaps.MergedIsFirst | src/routing/pinex/route_mapper.h:166-181 | in a list, existing routes and the first of equal prefixes win |
| RouteMappers.CanonicalIsJust | src/routing/pinex/route_mapper.h:324-370 | the nodes are exactly the root and the beginnings of the routes |
| RouteMappers.RouteMapper.NoSpareNodes | src/routing/pinex/route_mapper.h:132-239 | between calls the tree has exactly these nodes |
| RouteMappers.GrownCanonical | src/routing/pinex/route_mapper.h:330-341 | a new leaf is the only node that may be useless |
| RouteMappers.ShrunkCanonical | src/routing/pinex/route_mapper.h:358-368 | after a removal only the parent may be useless |
| RouteMappers.ShrunkKids | src/routing/pinex/route_mapper.h:364-365 | a removal takes one child from one node |
| RouteMappers.RouteMapper.constructor | src/routing/pinex/route_mapper.h:120-124 | no routes |
| RouteMappers.CharNode.CleanNode | src/routing/pinex/route_mapper.h:104-118 | no child and no count is left |
| RouteMappers.RouteMapper.AddChild | src/routing/pinex/route_mapper.h:334-338 | links, counts and tables stay consistent |
| RouteMappers.RouteMapper.CreateSubTree | src/routing/pinex/route_mapper.h:324-353 | the node of the prefix, or null iff it has a route; adds no route |
| RouteMappers.RouteMapper.CleanUp | src/routing/pinex/route_mapper.h:355-370 | prunes exactly the useless chain: what remains is the root and the beginnings of the routes, and no route is lost; terminates |
| RouteMappers.RouteMapper.Detach | src/routing/pinex/route_mapper.h:364-366 | one node leaves its parent's table and count |
| RouteMappers.RouteMapper.AddRoute | src/routing/pinex/route_mapper.h:132-153 | true iff the prefix is new; then it is added, else nothing changes |
| RouteMappers.RouteMapper.AddRoutes | src/routing/pinex/route_mapper.h:155-185 | the merge of the list, after clearing if asked; true iff each prefix was new at its turn |
| RouteMappers.RouteMapper.UpdateRoute | src/routing/pinex/route_mapper.h:187-208 | true iff the prefix has a route; then it is replaced, else nothing changes |
| RouteMappers.RouteMapper.DeleteRoute | src/routing/pinex/route_mapper.h:210-231 | true iff the prefix has a route, which is removed |
| RouteMappers.RouteMapper.ClearAllRoutes | src/routing/pinex/route_mapper.h:233-239 | only a route of the empty prefix stays |
| RouteMappers.RouteMapper.FindMatching | src/routing/pinex/route_mapper.h:270-322 | the node of the longest routed beginning of the key, in both directions |
| RouteMappers.RouteMapper.FoundBest | src/routing/pinex/route_mapper.h:280-321 | the last value met on the walk is the longest one |
| RouteMappers.RouteMapper.FindDestination | src/routing/pinex/route_mapper.h:241-268 | the longest-prefix answer with its length limit, stated on the number and the map of routes |
| UserDataHeaders.PrintedElements | libs/smpp/utility/short_message.hpp:65-69 | an element is its tag, its length and its content |
| UserDataHeaders.ParseExactly | libs/smpp/utility/short_message.hpp:35-55 | bytes parse as a list iff they are its elements in a row, those for concatenation of the right length, with at most one stray byte behind |
| UserDataHeaders.ReadExactly | libs/smpp/utility/short_message.hpp:92-106 | the first eight-bit element is read, without one the first sixteen-bit one |
| UserDataHeaders.ReadNothing | libs/smpp/utility/short_message.hpp:108 | without both the message is the only part |
| UserDataHeaders.ElementsRoundTrip | libs/smpp/utility/short_message.hpp:35-71 | a printed element list is read back iff its concatenation elements have their lengths, and is an error otherwise |
| UserDataHeaders.ReadsLast | libs/smpp/utility/short_message.hpp:92-109 | behind other elements the reader finds the one concatenation element |
| UserDataHeaders.SpilledReference | libs/smpp/utility/short_message.hpp:97-103 | which references the signed bytes give back |
| UserDataHeaders.MultiPartRoundTrip | libs/smpp/utility/short_message.hpp:73-109 | a part number survives setting, printing, parsing and reading iff its low byte is below 0x80 or its high byte is 0xFF |
| UserDataHeaders.UserDataHeader.ParseFrom | libs/smpp/utility/short_message.hpp:35-55 | the loop is the parser of the specification, with both errors |
| UserDataHeaders.UserDataHeader.SetMultiPartData | libs/smpp/utility/short_message.hpp:73-90 | appends the eight-bit form up to 0xFF, else the sixteen-bit form |
| UserDataHeaders.UserDataHeader.Serialize | libs/smpp/utility/short_message.hpp:62-71 | the elements in order |
| ShortMessages.EightBitCodings | libs/smpp/utility/data_coding_unicode.hpp:17-117 | which data codings are eight-bit ASCII |
| ShortMessages.PackRoundTripOnWire | libs/smpp/utility/short_message.hpp:112-153 | for the flag byte as sent: header and body come back iff bit 6 is set just in case there is a header, and that is well formed |
| ShortMessages.UnpackedExactly | libs/smpp/utility/short_message.hpp:112-131 | what a field unpacks to, by bit 6 of the flag byte, and when it is an error |
| ShortMessages.SplitHeader | libs/smpp/utility/short_message.hpp:122-127 | the header off the front of the field, with both errors |
| ShortMessages.PackRoundTrip | libs/smpp/utility/short_message.hpp:112-153 | within the limit, unpacking gives back header and body iff the flag is set just in case there is a header and the header is well formed |
| ShortMessages.PackShortMessage | libs/smpp/utility/short_message.hpp:133-153 | fails iff the field exceeds 160 or 140 bytes |
| ShortMessages.UnpackShortMessage | libs/smpp/utility/short_message.hpp:112-131 | splits the field as specified, with every error case |
| Deadlines.CurrentStays | src/libs/expirator.hpp:47-91 | an operation leaves a deadline below the index iff it stores one that does not fit 32 bits |
| Deadlines.CurrentAlways | src/libs/expirator.hpp:47-91 | a run whose deadlines fit never holds one below the index |
| Deadlines.EveryEntryEndsOnce | src/libs/expirator.hpp:47-91 | in any run, flushes included, entries there at first or stored later equal firings plus removals plus what is left |
| Deadlines.FiresInTime | src/libs/expirator.hpp:83-91 | an entry that is left alone fires once, at its tick, and is kept unchanged until then |
| Deadlines.KeptUntilDue | src/libs/expirator.hpp:47-91 | until its tick an entry keeps deadline and information, even if its key is added again |
| Deadlines.AddedFiresOnce | src/libs/expirator.hpp:47-91 | an entry added for d periods fires exactly once, on the (d+1)-th tick, d taken modulo 2^32 |
| Deadlines.RemovedIsSilent | src/libs/expirator.hpp:66-69 | a removed key does not fire |
| Expirators.Expirator.AddEntry | src/libs/expirator.hpp:47-55 | the step of the state machine; a key in use is left alone |
| Expirators.Expirator.GetInfo | src/libs/expirator.hpp:57-64 | the information of a stored key |
| Expirators.Expirator.RemoveEntry | src/libs/expirator.hpp:66-69 | the step of the state machine, and whether the key was there |
| Expirators.Expirator.CallHandler | src/libs/expirator.hpp:73-75 | the handler is called once for every entry |
| Expirators.Expirator.OnTimer | src/libs/expirator.hpp:83-91 | the step of the state machine; one call for every entry that is due |
| Expirators.Expirator.Flush | src/libs/expirator.hpp:71-80 | the step of the state machine; one call for every entry |
| SegmentedLoggers.Rotated | src/libs/segmented_logger.hpp:188-253 | closing a file moves its records and nothing else |
| SegmentedLoggers.SegmentedLogger.Record | src/libs/segmented_logger.hpp:179-186 | closed files, open file and buffer stay the log; no file is empty or over the threshold, the buffer is never full; the whole outcome: when a file is closed, with which records, under which number, and what stays buffered |
| SegmentedLoggers.SegmentedLogger.CheckForFlush | src/libs/segmented_logger.hpp:271-297 | the same after a push; at most one file is closed by a call |
| SegmentedLoggers.SegmentedLogger.WriteBufferToFile | src/libs/segmented_logger.hpp:325-354 | moves as many records as the file takes, in order |
| SegmentedLoggers.SegmentedLogger.CloseFile | src/libs/segmented_logger.hpp:188-253 | the open file joins the closed ones; numbers run from 1 to 9999 |

## Left out

- Sockets, executors, timers and clocks: step methods and parameters stand for them.
- Configuration observers, metrics, logging, message tracing, protobuf and the configuration server.
- The flow methods `adaptive` and `normal_distro`, changes of rate or window at run time (a new window does not reset the total of the old one), and the wait returned with a refusal in `credit`, which is read from an empty queue.
- PrefixRuleMatchers.PrefixRuleMatcher.SetRule: demands a free rule number and non-empty patterns, because the code asserts the one and indexes an empty string for the other.
- RoutingMatchers.RoutingMatcher.FindTarget: its parameter `is_available` is unused in the code and is not modelled.
- Sessions.Session.OnReceived: demands frames of announced lengths from 16 on, shorter ones are malformed; what happens to a session after a failed read is not modelled.
- Sessions.Session.SendImpl: demands that a PDU with its header stays below 4 GiB, the range of its length field.
- Sessions.Session.ConsumePdu: whether a body other than that of submit_sm parses is a parameter of the session.
- The threshold of the send buffer with its notification, the inactivity and enquire-link timers, and the deferred close handler.
- PDUs that may be omitted, all PDU structures other than submit_sm, the setters of oparam, unicode tables other than the eight-bit ASCII test, address normalisation.
- Copying, printing and the loop for other compilers in bit_set; destruction and byte counting in the trie.
- The lock, the destructor and the recursive freeing in route_mapper: cleared nodes are simply no longer part of the tree.
- Handlers that change the timeout table while they are called, and the order of calls within one tick.
- Naming, renaming, headers and footers of log files, files that cannot be opened, files left over from an earlier start, and records still buffered at shutdown.
- The copies of session, expirator and buffer for the inner protocol, which differ in the header alone.
