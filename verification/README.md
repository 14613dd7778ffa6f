# SEEMQTT: secret sharing, KeyNote and the key protocol

SEEMQTT lets a sensor publish encrypted messages through an untrusted MQTT broker. The publisher
splits its session key with Shamir's scheme and gives one share to each of several KeyStores; a
KeyStore hands a share to a subscriber whose credentials the KeyNote compliance checker accepts.
These Dafny files model the parts on which this rests and prove what they promise.

- **Shamir secret sharing over GF(257)** (CArithmetic, Field257, Polynomials, SecretSharing):
  C's truncating division on values that go negative, machine integers, square-and-multiply,
  the extended Euclid, Lagrange interpolation. t shares fix the secret, t - 1 shares fix nothing.
- **Shares as text** (HexText, CStrings, ShareText, ShareStrings): printed lines with the code G0
  for the field element 256, and the tokenizer, trimmer and joiner that read them back in place.
- **The KeyNote compliance checker** (Licensees, TrustGraph, TrustSearch, TrustExactness, TrustMeaning,
  TrustRuns, KeyRecording, FlowGraphs, TrustOrder, TrustTrap, TrustFilling, TrustTightness, CyclicExample,
  KeyHashing, KeyNoteSession): the Licensees grammar with its shared short-circuit flag, the
  recording of keys, the memoised depth-first search with cycle detection, and the hash table it
  runs on. The search is compared with the least solution of the equations of
  section 5.3 of RFC 2704, in which a principal is worth the best value of all assertions it signed.
  Its answer is never too high, on any graph; it is right wherever every cycle is entered at one
  assertion only; and given which assertions lead to which, this is the exact condition, as long as
  no listed key signed two of them. TrustMeaning says what an answer means without values: which
  policies the signatures, keys and formulas grant at a level.
- **The KeyStore and the protocol** (Database, ProtocolSteps, KeyStoreNode, SecMqttNode,
  KeySplitting, ProtocolRuns, ProtocolInvariant, ProtocolSafety): the row array as a nested map, the
  publisher's and the KeyStore's steps, and all interleavings of one publisher, n KeyStores with
  first-in-first-out channels, and everybody else on the broker, who may send any key message and
  any share message to a KeyStore, also in the publisher's name or copied from it, and to the
  publisher any acknowledgement they can get or make: one that is accepted takes a KeyStore that
  has answered a message with the publisher's master key and nonce, because these are secret.
- **Codecs and heap structures** (Base64, Folding, AssertionText, SessionTable, Environment):
  base64 (section 5.2 of RFC 1521) with exact buffer bounds, the signature folder and its readers,
  the assertion splitter, doubly linked session chains, the shadowing environment table.

`dafny verify dfyconfig.toml` checks everything.

How the C code is rendered: an `int` that must not overflow is `int32`, so a method that verifies
never leaves 32 signed bits. Random numbers, keys, hashes, what a name decodes to, what the
Conditions field yields, what a signature check and the delegation check answer, and what arrives
while the publisher waits are parameters. Encryption is symbolic: decryption with the wrong key
yields some junk, a parameter too, which the code goes on to use where the original does. Table
sizes, numbers of KeyStores, thresholds and numbers of return values are arbitrary.

Where the code does not do what its text promises:

- `generate_share_strings` measures the 16-byte session key with `strlen`. A key with a zero byte
  is cut short, and cannot be recovered from the text; ShareText.GenerateExtract shows that this
  is the only case.
- A member of a delegation cycle can be memoised below its value in the least solution, because an
  assertion in progress counts 0. CyclicExample shows a query that therefore answers too low, on a
  cycle entered at two assertions. Where every cycle is entered at one the answer is right, and it
  is never too high, whatever the graph (TrustExactness.QueryComputesComplianceValue).
  TrustTightness.AlwaysRightIff says for which listings the answer can be wrong at all.
- The acknowledgement of Phase I is meant to show that the KeyStore has the publisher's key. The
  KeyStore compares the H(pk) in a message with a hash of the pk beside it, and both are public: a
  key message that anybody makes for this pk is acknowledged too, and replaces the key
  (ProtocolSafety.OtherKeyReplaces). ProtocolSafety.ConnectedKeyIff says exactly when a connected
  publisher's key is the stored one.
- A KeyStore without a free row acknowledges a key all the same, and the publisher connects
  (ProtocolSafety.FullStoreConnects; ProtocolSafety.ConnectedStoredIff for when).
- The KeyStore keeps the outcome of decrypting a share in one variable and tests another, so a
  share that fails its authentication is stored under whatever topic comes out
  (ProtocolSafety.OtherShareReplaces).
  ProtocolSafety.ShareHeldIff says exactly when the publisher's share is still the stored one.
- `kn_init` wraps its counter only while it looks for a free id, not when it takes one: after id
  2147483647 the next bucket index is negative (SessionTable.CounterStays, CounterRunsOut).
- `AddsymK` answers -1 both when it updates a known device and when the table is full.
- `keynote_fix_fields` loses an assertion from the table when it gives up on it; Reposition says
  when.

## Model

| member | source | states |
|---|---|---|
| Field257.Bezout | ESP32/SEEMQTT/shamirsecretshare.c:85-106 | the extended Euclid with truncating division returns coefficients with a*x + b*y == gcd, for all nonnegative arguments |
| Field257.GcdDivides | ESP32/SEEMQTT/shamirsecretshare.c:85-106 | its first component divides both arguments, so it is 1 for 257 and any k in 1..256 |
| Field257.CoefficientBound | ESP32/SEEMQTT/shamirsecretshare.c:85-106 | the coefficients stay within the size of the arguments, so the results of the recursion fit in an int and PRIME + r is not negative |
| Field257.ModInverseCorrect | ESP32/SEEMQTT/shamirsecretshare.c:108-126 | for every k, negative ones included, the result is in 0..256, and k times it is congruent to 1 unless 257 divides k, when the result is 0 |
| Field257.GcdProductBound | ESP32/SEEMQTT/shamirsecretshare.c:85-106 | nor does the product in its recursive step |
| Field257.ModExpRange | ESP32/SEEMQTT/shamirsecretshare.c:28-37 | the remainder is between -256 and 256, and not negative for a base that is not |
| Field257.ModExpFits | ESP32/SEEMQTT/shamirsecretshare.c:28-37 | for the bases that occur, both products whose remainder is taken fit in 32 signed bits |
| Field257.ModExpCorrect | ESP32/SEEMQTT/shamirsecretshare.c:28-37 | square-and-multiply is congruent to the plain power |
| Polynomials.ManyRoots | ESP32/SEEMQTT/shamirsecretshare.c:46-82 | a polynomial of t coefficients that vanishes modulo 257 at t distinct points is zero everywhere: two polynomials drawn by the split cannot agree at t points unless they agree at 0 |
| Polynomials.LagrangeRecovers | ESP32/SEEMQTT/shamirsecretshare.c:133-167 | Lagrange interpolation through m >= t distinct points of a polynomial with t coefficients gives its value at every point |
| SecretSharing.ShareOf | ESP32/SEEMQTT/shamirsecretshare.c:64-77 | the inner loop computes the value of the coefficient polynomial at x + 1 in 0..256, every int in range |
| SecretSharing.SplitNumber | ESP32/SEEMQTT/shamirsecretshare.c:46-82 | share x is the value at x + 1 of the polynomial (number, random residues), written out term by term, for any random numbers, without overflow |
| SecretSharing.ShareIs | ESP32/SEEMQTT/shamirsecretshare.c:46-82 | a share is the secret plus each random number modulo 257 times its power of the share number, modulo 257 |
| SecretSharing.Terms | ESP32/SEEMQTT/shamirsecretshare.c:149-156 | the two products for share i, in 32-bit arithmetic that stays in range |
| SecretSharing.JoinShares | ESP32/SEEMQTT/shamirsecretshare.c:133-167 | the loops compute Lagrange interpolation at 0 over the given pairs, in 32 signed bits throughout |
| SecretSharing.ModInverseRespects | ESP32/SEEMQTT/shamirsecretshare.c:108-126 | congruent arguments have the same inverse, so reducing the denominator on the way does no harm |
| SecretSharing.SharesRecoverSecret | ESP32/SEEMQTT/shamirsecretshare.c:46-167 | any m >= t shares with distinct x, in any order, join to the secret |
| SecretSharing.ExplanationExists | ESP32/SEEMQTT/shamirsecretshare.c:46-82 | for any t - 1 shares and any candidate secret there are coefficients that produce these shares |
| SecretSharing.ExplanationUnique | ESP32/SEEMQTT/shamirsecretshare.c:46-82 | there is at most one such coefficient vector |
| SecretSharing.ThresholdExact | ESP32/SEEMQTT/shamirsecretshare.c:46-82 | both together: t - 1 shares are consistent with every secret in exactly one way |
| HexText.HexRoundTrip | ESP32/SEEMQTT/shamirsecretshare.c:203-209 | two hexadecimal digits printed with %02X read back through strtol to the number |
| HexText.StrtolOfTwo | ESP32/SEEMQTT/shamirsecretshare.c:247-279 | what strtol in base 16 makes of any two characters: digits of either case, signs, spaces, and everything else |
| ShareText.CodonRoundTrip | ESP32/SEEMQTT/shamirsecretshare.c:203-209 | a field element in 0..256, with the code G0 for 256, reads back |
| ShareText.LineReadsBack | ESP32/SEEMQTT/shamirsecretshare.c:188-209 | a printed share line yields its share number, the threshold, the two characters AA, and every share value |
| ShareText.DrawnLine | ESP32/SEEMQTT/shamirsecretshare.c:173-209 | character for character: number, threshold and values below 256 in two upper-case hexadecimal digits each, 256 as G0, each value the byte plus the residues times powers of the share number |
| ShareText.TokensOfLines | ESP32/SEEMQTT/shamirsecretshare.c:342-371 | a text of newline-terminated lines falls apart into exactly these lines |
| ShareText.NextTokenMeans | ESP32/SEEMQTT/shamirsecretshare.c:342-371 | one token: newlines are skipped, it is not empty, holds none, and one newline after it goes; there is none exactly in a text of newlines |
| ShareText.TrimMeans | ESP32/SEEMQTT/shamirsecretshare.c:320-340 | exactly the spaces, tabs, newlines and carriage returns at the end go |
| ShareText.KeptOneByOne | ESP32/SEEMQTT/shamirsecretshare.c:390-405 | tokens are kept in order and one by one, trimmed, unless nothing is left of them |
| ShareText.KeptLinesOfLines | ESP32/SEEMQTT/shamirsecretshare.c:377-405 | trimming and dropping empty lines keeps all printed lines |
| ShareText.PickedLinesJoin | ESP32/SEEMQTT/shamirsecretshare.c:229-289 | any t or more printed lines with distinct numbers, in any order, join to the secret byte for byte |
| ShareText.TextRoundTrip | ESP32/SEEMQTT/shamirsecretshare.c:377-421 | the publisher reads the first t lines, the subscriber reads all; on any m >= t lines in any order both return the secret |
| ShareText.GenerateExtract | ESP32/SEEMQTT/shamirsecretshare.c:296-421 | splitting a block into text and extracting it gives the block back if and only if the block has no zero byte |
| ShareStrings.Strspn | ESP32/SEEMQTT/shamirsecretshare.c:354 | skips exactly the leading newlines |
| ShareStrings.Strcspn | ESP32/SEEMQTT/shamirsecretshare.c:362 | stops at the next newline or at the end of the string |
| ShareStrings.StrtokRR | ESP32/SEEMQTT/shamirsecretshare.c:342-371 | cuts the next token, the first characters that are no newlines, out of the buffer in place and leaves the rest of the string at the saved position |
| ShareStrings.TrimTrailingWhitespace | ESP32/SEEMQTT/shamirsecretshare.c:320-340 | shortens the string in place by its trailing blanks, tabs, newlines and carriage returns |
| ShareStrings.ReadNumbers | ESP32/SEEMQTT/shamirsecretshare.c:247-257 | the share numbers are those the first two characters of the lines stand for |
| ShareStrings.CollectChunks | ESP32/SEEMQTT/shamirsecretshare.c:262-279 | the pairs handed to the interpolation are the share numbers and the values of one character column |
| ShareStrings.JoinStrings | ESP32/SEEMQTT/shamirsecretshare.c:229-289 | NULL for no lines or if one of them is NULL, otherwise one byte for each column: the interpolation at 0 of numbers and values, in eight bits |
| ShareStrings.CollectShares | ESP32/SEEMQTT/shamirsecretshare.c:377-405 | the collected strings are the kept lines of the text; the scratch copy is cut, the input is not |
| ShareStrings.ExtractSecretFirst | ESP32/SEEMQTT/shamirsecretshare.c:377-421 | NULL with fewer than t lines, otherwise the join of the first t |
| ShareStrings.ExtractSecretAll | Subscriber/shamirsecretshare.c:347-386 | the join of every line supplied |
| ShareStrings.SplitString | ESP32/SEEMQTT/shamirsecretshare.c:173-215 | share r holds its number r + 1, the threshold, AA, and the values of all characters before the first NUL of the secret, character for character |
| ShareStrings.GenerateShareStrings | ESP32/SEEMQTT/shamirsecretshare.c:296-317 | the buffer holds every line in its slot, character for character, with number i + 1, threshold and AA; for a secret that a zero byte cuts short, only the first line |
| Licensees.KthIsKthLargest | KeyStore/KeyNote/k.tab.c:2903-2916 | the k-of value occurs among the values, at least k of them reach it and fewer than k exceed it |
| Licensees.GetKth | KeyStore/KeyNote/k.tab.c:2903-2916 | walking the counts down from the best value finds the k-th largest, for every number of return values |
| Licensees.ValueMonotone | KeyStore/KeyNote/k.tab.c:1552-1640 | raising the value of principals never lowers the value of an expression |
| Licensees.ValueLocal | KeyStore/KeyNote/k.tab.c:1552-1640 | the value depends on the principals of the expression only |
| Licensees.ShortCircuitCorrect | KeyStore/KeyNote/k.tab.c:1562-1704 | with the shared flag clear the short-circuit evaluation gives exactly the min, max and k-th largest value, and leaves the flag clear; with it set, a value between 0 and the plain one |
| TrustGraph.EquationsMonotone | KeyStore/KeyNote/parse_assertion.c:279-415 | the equations that one evaluation computes are monotone |
| TrustGraph.LeastFixpointExists | KeyStore/KeyNote/parse_assertion.c:279-415 | they have a least solution on every graph, which is also below every prefixpoint |
| TrustGraph.IndexAgreesWithScan | KeyStore/KeyNote/auxil.c:330-353 | with every assertion in the bucket of its authorizer, the look-up enumerates each matching assertion of the whole table exactly once |
| TrustGraph.SignedIsFound | KeyStore/KeyNote/k.tab.c:2705-2736 | so the best value the look-up finds for a key is the best value of all assertions that the key signed, hash and table aside |
| TrustGraph.SolutionsAreEqual | KeyStore/KeyNote/parse_assertion.c:279-415 | and the least solution of the equations that the code computes is the least solution of the plain ones |
| TrustGraph.PlainSolutionExists | KeyStore/KeyNote/parse_assertion.c:279-415 | which therefore exists |
| KeyHashing.StringHash | KeyStore/KeyNote/auxil.c:538-556 | the loop computes the string hash in 32 unsigned bits, with signed characters |
| KeyHashing.HashExamples | KeyStore/KeyNote/auxil.c:538-556 | the hash of ABC is 1371, and that of one character with code 200, which is negative, 16331 |
| KeyHashing.SumNumbers | KeyStore/KeyNote/auxil.c:67-100 | the bucket of a DSA, RSA or X509 key is the sum of its numbers modulo the table size |
| KeyHashing.SumBytes | KeyStore/KeyNote/auxil.c:103-108 | the bucket of a binary key is the sum of its bytes modulo the table size |
| KeyHashing.KeynoteKeyhash | KeyStore/KeyNote/auxil.c:46-117 | sum of the big numbers, sum of the bytes, string hash, or 0, by the algorithm |
| KeyHashing.KeyHashRespectsMatches | KeyStore/KeyNote/auxil.c:46-117 | keys that the look-up takes for equal hash alike, an RSA key and an X509 key with the same numbers included |
| TrustSearch.Evaluate | KeyStore/KeyNote/parse_assertion.c:279-415 | terminates on every graph, with the untouched assertions as measure; ends with the assertion done, the same calls active as before, and nothing else that was touched changed |
| TrustSearch.Visit | KeyStore/KeyNote/parse_assertion.c:314-365 | after the loops over keys and assertions none of them is untouched, and the same calls are active |
| TrustSearch.EvaluateSound | KeyStore/KeyNote/parse_assertion.c:279-415 | one evaluation keeps every finished result at or below any solution of the equations, on any graph |
| TrustSearch.QuerySound | KeyStore/KeyNote/parse_assertion.c:524-583 | the result of the policy loop is at most the best value a solution gives to a policy, whatever the delegation check answers |
| TrustSearch.QueryLeavesNoneActive | KeyStore/KeyNote/parse_assertion.c:524-583 | no assertion is left in progress, and finished ones that are not policies keep their result |
| TrustSearch.VetoForgets | KeyStore/KeyNote/parse_assertion.c:564-577 | after a veto the loop goes on as if it began with 0, unless the best value was reached before; a veto after the last policy leaves 0 |
| TrustExactness.HeadValue | KeyStore/KeyNote/parse_assertion.c:349-353 | an assertion computed while it counts 0 itself gets its value in the solution in which it does not |
| TrustExactness.ForwardValue | KeyStore/KeyNote/parse_assertion.c:314-365 | what is in progress outside a cycle does not change the values inside it |
| TrustExactness.EvaluateExact | KeyStore/KeyNote/parse_assertion.c:279-415 | where every cycle is entered at one assertion only, every finished result is the value in the least solution with the assertions that dominate it at 0 |
| TrustExactness.QueryExact | KeyStore/KeyNote/parse_assertion.c:524-583 | the policy loop then finds exactly the best value of a policy, if the delegation check passes |
| TrustExactness.QueryComputesComplianceValue | KeyStore/KeyNote/parse_assertion.c:524-583 | the policy compliance value over all assertions, hash and table aside: never more than the least solution gives the policies, on every graph and whatever the delegation check answers; exactly that if every cycle is entered at one assertion only |
| TrustExactness.SelfListingsAreEnteredOnce | KeyStore/KeyNote/parse_assertion.c:342-353 | which covers graphs whose only cycles are assertions that list their own authorizer |
| TrustMeaning.MatchesMeans | KeyStore/KeyNote/auxil.c:330-353 | two keys match exactly with equal numbers under one supported algorithm, RSA and X509 being one |
| TrustMeaning.LookupMeans | KeyStore/KeyNote/auxil.c:289-297 | the look-up gives the first entry with the name, and none exactly if there is none |
| TrustMeaning.ValueReaches | KeyStore/KeyNote/k.tab.c:1552-1640 | an expression reaches a level exactly if, read as a formula over the principals that reach it, it holds: both, either, or k places of the list |
| TrustMeaning.WellFormedMeans | KeyStore/KeyNote/k.tab.c:1610-1639 | an expression is well-formed exactly if no k-of in it lists fewer than k |
| TrustMeaning.EquationReaches | KeyStore/KeyNote/parse_assertion.c:279-415 | an equation reaches a level exactly if the rule for its assertion applies: it is local or verifies, its Conditions reach the level, and its Licensees field holds over requesters and signers of assertions that reach it |
| TrustMeaning.SolutionMeans | KeyStore/KeyNote/parse_assertion.c:279-415 | in the least solution an assertion reaches a level if and only if it is in every set that is closed under these rules |
| TrustMeaning.VisitsMean | KeyStore/KeyNote/parse_assertion.c:314-365 | the search goes on to exactly the assertions signed by a listed key that no action authorizer matches |
| TrustMeaning.WorthlessStops | KeyStore/KeyNote/parse_assertion.c:287-312 | an assertion whose Conditions are in error or worth nothing is done with 0, nothing else is visited, and an error is noted |
| TrustMeaning.QueryMeans | KeyStore/KeyNote/parse_assertion.c:524-583 | a query reaches a level only if the rules grant a policy at it; it reaches every level a policy has without other assertions, and every level granted if every cycle is entered at one assertion only, as long as the delegation check never vetoes; if that always does, the answer is 0 |
| TrustMeaning.LicensedRequester | KeyStore/KeyNote/auxil.c:122-156 | a policy without Conditions that licenses one name, recorded with a key that any of the action authorizers matches, makes the answer the best value |
| TrustOrder.SameEvaluate | KeyStore/KeyNote/parse_assertion.c:314-365 | which assertions are visited, and in which order, depends only on which ones each leads to, unless a Conditions field is worthless |
| TrustOrder.EvaluateCloses | KeyStore/KeyNote/parse_assertion.c:314-365 | when a call returns, everything listed by an assertion it has touched is touched |
| TrustTightness.OneEntryNests | KeyStore/KeyNote/parse_assertion.c:342-353 | if no cycle of the listing structure can be entered at two assertions, its dominators meet the condition of the exactness theorem |
| TrustFilling.FilledFromFields | KeyStore/KeyNote/lex.kn.c:2844-2906 | the contents that make a query lose are ones the code can hold: each key list is exactly what reading its Licensees field records |
| TrustFilling.FilledSameOrder | KeyStore/KeyNote/parse_assertion.c:314-365 | they keep the order in which assertions lead to others |
| TrustFilling.FilledBehaves | KeyStore/KeyNote/k.tab.c:1552-1640 | and under them chosen assertions are worth what their targets are worth, one is worth the most and the others nothing |
| TrustTightness.CycleLoses | KeyStore/KeyNote/parse_assertion.c:349-353 | a cycle that can be entered at two assertions, be it through a policy, loses: if neither the assertion met first nor the one before it is a policy, some Conditions, Licensees and Signature fields with the same order of visits make every query answer 0 although a policy is worth the most |
| TrustTightness.TwoEntriesLose | KeyStore/KeyNote/parse_assertion.c:349-353 | this happens for every listing that has a cycle with two entries, if no listed key signed two assertions |
| TrustTightness.AlwaysRightIff | KeyStore/KeyNote/parse_assertion.c:279-583 | so, where no listed key signed two assertions: every query is right, whatever the fields say that keep the order of visits and whose names are the key lists, if and only if no cycle can be entered at two assertions |
| TrustRuns.EvaluateRunGood | KeyStore/KeyNote/parse_assertion.c:279-415 | after every single write of a call: finished results are sound, the assertions in progress are exactly the active calls, finished ones stay as they are |
| TrustRuns.QueryRunGood | KeyStore/KeyNote/parse_assertion.c:524-583 | the same after every write of every query |
| TrustRuns.QueryRunSingle | KeyStore/KeyNote/parse_assertion.c:279-415 | these states are complete: from each to the next at most one field of one assertion changes |
| TrustRuns.EvaluatedAtMostOnce | KeyStore/KeyNote/parse_assertion.c:279-415 | in one query every assertion that is not a policy is evaluated at most once |
| CyclicExample.CycleLosesValue | KeyStore/KeyNote/parse_assertion.c:349-353 | a concrete cycle on which the query answers 0 although the least solution gives the policy the best value |
| CyclicExample.CycleIsEnteredTwice | KeyStore/KeyNote/parse_assertion.c:349-353 | that cycle is entered at two assertions, and this is the only condition of the exactness theorem that fails |
| CyclicExample.LoopIsEnteredOnce | KeyStore/KeyNote/parse_assertion.c:349-353 | the same cycle entered at one assertion meets the condition |
| CyclicExample.CycleIsPlain | KeyStore/KeyNote/parse_assertion.c:349-353 | the example meets the hypotheses of that theorem, its key lists are those of its fields, and its cycle has two entries |
| CyclicExample.PolicyOnCycleLoses | KeyStore/KeyNote/parse_assertion.c:349-353 | a policy on a cycle does not make a second entry harmless, although it is evaluated again; again with key lists that are those of the fields |
| KeyNoteSession.Session.constructor | KeyStore/KeyNote/environment.c:369-376 | an empty table with its index in order |
| KeyNoteSession.NewSession | KeyStore/KeyNote/auxil.c:46-117 | the hash of keynote_keyhash over 37 buckets is one under which the index works |
| KeyNoteSession.Session.AddAssertion | KeyStore/KeyNote/auxil.c:396-440 | the assertion gets the next id and stands first in its bucket, and waits for processing; it is refused exactly if the counter is negative after counting |
| KeyNoteSession.Session.RecordExpression | KeyStore/KeyNote/k.tab.c:1552-1704 | recording succeeds exactly if the expression is well-formed and all its names decode, and then has recorded all of them |
| KeyNoteSession.Session.RecordKeypred | KeyStore/KeyNote/lex.kn.c:2844-2906 | succeeds exactly if the field parses and its names decode; then the list holds all of them; on an error the old list stays |
| KeyRecording.RecordingFinds | KeyStore/KeyNote/lex.kn.c:2844-2906 | every recorded name is found in the recorded list, with its own key |
| KeyRecording.RecordingAt | KeyStore/KeyNote/lex.kn.c:2844-2906 | entry by entry: the last name read stands first, each with its own key |
| KeyRecording.KeysReadAnswer | KeyStore/KeyNote/lex.kn.c:2844-2906 | the list read answers for every principal of the field |
| KeyNoteSession.Session.RecordedGraph | KeyStore/KeyNote/lex.kn.c:2844-2906 | so the look-ups of the evaluating pass never fail, provided the names decode |
| KeyNoteSession.Session.ProcessOne | KeyStore/KeyNote/parse_assertion.c:448-492 | each of the three key fields is read again exactly if the assertion is new or that field depends on the environment; an error is noted |
| KeyNoteSession.Session.ProcessFields | KeyStore/KeyNote/parse_assertion.c:443-493 | that happens to every assertion of the table, once |
| KeyNoteSession.Session.FindAssertion | KeyStore/KeyNote/auxil.c:330-353 | the assertion of the bucket that num others of the same key come before, NULL if there are not that many |
| KeyNoteSession.Session.InActionAuthorizers | KeyStore/KeyNote/auxil.c:122-156 | true exactly if some entry of the action authorizers is the same key |
| KeyNoteSession.Session.KeylistFind | KeyStore/KeyNote/auxil.c:289-297 | the first entry of that name |
| KeyNoteSession.Session.ResolveAssertion | KeyStore/KeyNote/k.tab.c:2705-2736 | the best result of the finished assertions of a key, the early stop at the top included |
| KeyNoteSession.Session.PrincipalValue | KeyStore/KeyNote/k.tab.c:1666-1704 | 0 under the flag, the top for an action authorizer, otherwise what the principal's assertions are worth |
| KeyNoteSession.Session.CountValues | KeyStore/KeyNote/k.tab.c:1643-1663 | the counts are how often each return value occurs in the list |
| KeyNoteSession.Session.KOfValue | KeyStore/KeyNote/k.tab.c:1610-1639 | an error exactly if the list is too short, otherwise the k-th best value, or 0 under the flag |
| KeyNoteSession.Session.KeyExpression | KeyStore/KeyNote/k.tab.c:1552-1704 | running the actions over an expression gives the short-circuit value and flag, and fails exactly on an ill-formed expression |
| KeyNoteSession.Session.Conjunction | KeyStore/KeyNote/k.tab.c:1564-1582 | the three actions of && around its operands |
| KeyNoteSession.Session.Disjunction | KeyStore/KeyNote/k.tab.c:1583-1600 | the three actions of || around its operands |
| KeyNoteSession.Session.ParseKeypred | KeyStore/KeyNote/lex.kn.c:2844-2906 | the evaluating pass returns the plain value of the field, 0 for one that is ill-formed |
| KeyNoteSession.Session.BeginEvaluation | KeyStore/KeyNote/parse_assertion.c:287-312 | a failed or worthless Conditions field settles the assertion with value 0 at once |
| KeyNoteSession.Session.RecEvaluateQuery | KeyStore/KeyNote/parse_assertion.c:279-415 | the recursive method on linked assertions does what the search function does to their states, and terminates |
| KeyNoteSession.Session.ExploreKeys | KeyStore/KeyNote/parse_assertion.c:314-365 | the loop over the listed keys visits the assertions of every key that is not an action authorizer |
| KeyNoteSession.Session.ExploreKey | KeyStore/KeyNote/parse_assertion.c:342-364 | the loop over one key visits its assertions in table order |
| KeyNoteSession.Session.FinishEvaluation | KeyStore/KeyNote/parse_assertion.c:367-414 | combines the fields, checks the signature once, and marks the assertion done |
| KeyNoteSession.Session.EvaluateQuery | KeyStore/KeyNote/parse_assertion.c:538-582 | the loop over the table computes the query of the policies in table order |
| KeyNoteSession.Session.RemoveAssertion | KeyStore/KeyNote/auxil.c:445-490 | unlinks one assertion with the id, the first in bucket order, or reports that there is none |
| KeyNoteSession.Session.Reposition | KeyStore/KeyNote/parse_assertion.c:495-517 | the restarting loop terminates; it succeeds exactly if whatever must move has an authorizer; then the multiset of assertions is kept and each is in the bucket of its authorizer's hash; otherwise one is lost from the table |
| KeyNoteSession.Session.FixFields | KeyStore/KeyNote/parse_assertion.c:422-518 | both loops together: it fails exactly if an authorizer that was read yields no key; every field that is read, every error noted, and what depends on the environment from now on; the key lists answer if those not read again did |
| KeyNoteSession.Session.ResetAssertions | KeyStore/KeyNote/environment.c:687-699 | every assertion is untouched again, with value 0 and no error, and its signature unchecked if that depends on the environment |
| KeyNoteSession.Session.PrepareQuery | KeyStore/KeyNote/environment.c:687-702 | after a successful preparation every assertion is listed once, in the bucket of its authorizer, and in the state in which a query starts |
| KeyNoteSession.Session.DoQuery | KeyStore/KeyNote/environment.c:641-702 | -1 exactly without authorizers or return values or with a bad Authorizer field; otherwise the answer is at most what the least solution of the plain equations gives a policy, and equal to it if every cycle is entered at one assertion only, the names decode and the delegation check passes; and it means what TrustMeaning.QueryMeans says, in terms of keys, signatures and formulas alone |
| Database.HoldsOne | KeyStore/KS/db.c:131-281 | an array of rows stands for only one nested map |
| Database.RowsInUse | KeyStore/KS/db.c:229-270 | the rows in use are as many as the slots of the map, one for every topic of a device; a row without topic counts as the topic of all zeros |
| Database.Table.constructor | KeyStore/KS/db.c:10-18 | the zeroed array stands for the empty map |
| Database.Table.GetShare | KeyStore/KS/db.c:131-144 | the share of the map, or -1 if device or topic is unknown; two hashes of zeros find a free row |
| Database.Table.GetSymK | KeyStore/KS/db.c:191-204 | the device's key, or -1 and the buffer untouched; a hash of zeros finds a free row |
| Database.Table.AddsymK | KeyStore/KS/db.c:223-251 | a known device gets the key in all rows, with answer -1; an unknown one gets a row exactly if one is free; no other device, and no share, changes |
| Database.Table.AddRow | KeyStore/KS/db.c:255-270 | adds the topic exactly if a row is free |
| Database.Table.Addshare | KeyStore/KS/db.c:146-186 | -1 exactly for an unknown device or for a new topic without a row that is free or without topic; otherwise the map gains that share, which takes the row without topic if there is one; a topic of zeros leaves the row without topic |
| ProtocolSteps.Unmasked | ESP32/SEEMQTT/seemqtt.cpp:641-652 | taking the nonce off a masked hash gives the hash back |
| KeyStoreNode.KeyStore.MaskNonce | KeyStore/KS/KeyStore_ibe.c:434-435 | the loop fills the acknowledgement with the hash xor the repeated nonce |
| KeyStoreNode.KeyStore.ReceiveKey | KeyStore/KS/KeyStore_ibe.c:273-499 | a wrong H(pk) leaves only the global key overwritten; otherwise the acknowledgement, H(pk) xor the nonce under the key, is sent, and the key stored if there is room |
| KeyStoreNode.KeyStore.ReceiveShare | KeyStore/KS/KeyStore_ibe.c:562-645 | the share goes to the device named in clear, decrypted with that device's stored key, and to no other; refused exactly for an unknown device or for want of a row |
| KeyStoreNode.KeyStore.KsCallback | KeyStore/KS/KeyStore_ibe.c:257-647 | messages for other KeyStores change nothing; the others do what the two phases do |
| SecMqttNode.SecMqtt.GenerateKeys | ESP32/SEEMQTT/seemqtt.cpp:88-108 | every KeyStore gets a master key and a nonce of its own; the verified flags stay |
| SecMqttNode.SecMqtt.PublishKeys | ESP32/SEEMQTT/seemqtt.cpp:144-190 | message i goes to KeyStore i + 1 with its own key and nonce, and H(pk) |
| SecMqttNode.SecMqtt.CheckAllKsnNonceStat | ESP32/SEEMQTT/seemqtt.cpp:973-980 | true exactly if every KeyStore is verified |
| SecMqttNode.SecMqtt.SecCallback | ESP32/SEEMQTT/seemqtt.cpp:587-678 | a KeyStore is verified exactly if its answer decrypts under its key and unmasks with its nonce to H(pk), no other flag changes, and the status follows |
| SecMqttNode.SecMqtt.Await | ESP32/SEEMQTT/seemqtt.cpp:207-227 | the wait loop ends verified, refused or timed out by what came first: answers of all KeyStores, a wrong answer, or the time; only KeyStores that gave a right answer become verified; without an answer the time is up |
| SecMqttNode.AwaitedOutcome | ESP32/SEEMQTT/seemqtt.cpp:207-227 | which of the three it is, from the arrivals up to the first wrong one alone |
| SecMqttNode.AwaitedVerified | ESP32/SEEMQTT/seemqtt.cpp:587-678 | a KeyStore becomes verified only by an answer that decrypts under its key and unmasks with its nonce to H(pk) |
| SecMqttNode.SecMqtt.SssSplit | ESP32/SEEMQTT/seemqtt.cpp:696-708 | every share buffer holds one line with its newline, if the key has no zero byte |
| SecMqttNode.SecMqtt.SecSessionKeyUpdate | ESP32/SEEMQTT/seemqtt.cpp:365-548 | a new session key with its counter at 0, split, and share i sent under master key i |
| SecMqttNode.SecMqtt.SecConnect | ESP32/SEEMQTT/seemqtt.cpp:44-261 | each KeyStore is sent its own key and nonce; connected, with shares of a session key sent, only with every KeyStore verified, and exactly if the wait loop ended so; otherwise no share is sent; one that is connected already sends a new session key at once |
| SecMqttNode.SecMqtt.SecPublish | ESP32/SEEMQTT/seemqtt.cpp:274-363 | nothing unless connected; the session key is replaced first when it was used 50 times |
| KeySplitting.SecmqttKeySplit | ESP32/SEEMQTT/seemqtt.cpp:680-694 | the exclusive or of all shares is the session key, byte for byte |
| KeySplitting.MissingShareFixesNothing | ESP32/SEEMQTT/seemqtt.cpp:680-694 | whichever share is missing, exactly one value of it goes with each candidate key |
| ProtocolInvariant.StepKeeps | ESP32/SEEMQTT/seemqtt.cpp:44-261 | every step of publisher, KeyStores, channels and of anybody else who sends key messages, share messages and acknowledgements keeps the protocol invariant |
| ProtocolInvariant.RunKeeps | ESP32/SEEMQTT/seemqtt.cpp:44-363 | so does every run |
| ProtocolInvariant.AckVerifies | ESP32/SEEMQTT/seemqtt.cpp:628-661 | the acknowledgement a KeyStore has sent always verifies |
| ProtocolInvariant.AckAcceptedIff | ESP32/SEEMQTT/seemqtt.cpp:641-673 | an acknowledgement is accepted if and only if it decrypts to the masked hash of the publisher; otherwise the attempt has failed; no other KeyStore is affected |
| ProtocolInvariant.OtherAckKeeps | ESP32/SEEMQTT/seemqtt.cpp:587-678 | an acknowledgement of somebody without the publisher's secrets can end a connection but not bring one about |
| ProtocolSafety.ConnectedKeyIff | KeyStore/KS/KeyStore_ibe.c:401-499 | in every run, whatever others send: when the publisher is connected, a KeyStore maps H(pk) to the publisher's master key if and only if the last key message naming H(pk) that it acknowledged carried that key and had a row; no session key is used more than 50 times |
| ProtocolSafety.ConnectedAllAnswered | ESP32/SEEMQTT/seemqtt.cpp:207-232 | in every run: connected means that every KeyStore has answered a message with its own master key and nonce |
| ProtocolSafety.DrawnKeysStay | ESP32/SEEMQTT/seemqtt.cpp:88-108 | in every run: each KeyStore has the key and nonce drawn for it in every later state, so different keys stay different |
| ProtocolSafety.ConnectedStoredIff | ESP32/SEEMQTT/seemqtt.cpp:207-232 | in runs in which nobody else names H(pk): connected means that a KeyStore has the publisher's key if and only if it was not refused for want of a row |
| ProtocolSafety.CopyIsAnswered | KeyStore/KS/KeyStore_ibe.c:401-499 | a copy of the key message that arrives before the message itself is answered, and the answer verifies |
| ProtocolSafety.OtherKeyReplaces | KeyStore/KS/KeyStore_ibe.c:401-499 | a key message for H(pk) made by anybody is acknowledged and replaces the publisher's key, unnoticed by the publisher |
| ProtocolSafety.FullStoreConnects | KeyStore/KS/KeyStore_ibe.c:434-499 | a KeyStore without a row acknowledges the key it does not store, and the publisher connects |
| ProtocolSafety.TakenShareIff | KeyStore/KS/KeyStore_ibe.c:601-639 | a share message of the publisher becomes the stored share if and only if the KeyStore has the publisher's key and a row |
| ProtocolSafety.ShareHeldIff | KeyStore/KS/KeyStore_ibe.c:562-645 | from then on the KeyStore has that share if and only if no later message of somebody else that names H(pk) made it write another one under this topic; what it has is exactly the last one written |
| ProtocolSafety.OtherShareReplaces | KeyStore/KS/KeyStore_ibe.c:610-639 | a share message under another key is stored all the same, and replaces the publisher's share if the topic that comes out of the decryption is the publisher's |
| ProtocolSafety.EpochRecombines | ESP32/SEEMQTT/seemqtt.cpp:696-708 | in every run, whatever others send: the shares that any t or more KeyStores have of one epoch give back that epoch's session key, if it has no zero byte |
| ProtocolSafety.UnnamedShare | KeyStore/KS/KeyStore_ibe.c:601-639 | as long as nobody else names H(pk), a KeyStore has the last share it took from the publisher, or none if its key was refused |
| ProtocolSafety.DeliveredIsCurrent | ESP32/SEEMQTT/seemqtt.cpp:365-548 | once Phase II is delivered to a KeyStore, the last share it took is of the session key in use |
| ProtocolSafety.SessionKeyRecovered | ESP32/SEEMQTT/seemqtt.cpp:365-548 | both phases together: as long as nobody else names H(pk), any t or more KeyStores that did not refuse the key and have been sent everything give back the session key in use, if it has no zero byte |
| Base64.KnEncodeBase64 | KeyStore/KeyNote/base64.c:164-237 | succeeds exactly if the target has 4*ceil(n/3) + 1 places, and then holds the encoding, character for character, and a NUL |
| Base64.EncodeIsBase64 | KeyStore/KeyNote/base64.c:97-237 | character k is that of the alphabet A-Z a-z 0-9 + / for the k-th six bits of the source, or = behind its last bit |
| Base64.OneBase64 | KeyStore/KeyNote/base64.c:97-237 | and no other text has this form |
| Base64.EncodeInjective | KeyStore/KeyNote/base64.c:164-237 | no two byte strings have the same encoding |
| Base64.RoundTrip | KeyStore/KeyNote/base64.c:164-391 | an encoding has no whitespace, and only its own bytes can be decoded from it |
| Base64.Take | KeyStore/KeyNote/base64.c:271-323 | one digit into the target, refused exactly if its byte or the next one is past the end |
| Base64.DecodeDigits | KeyStore/KeyNote/base64.c:258-324 | stops at the end or at =; refuses only texts that no bytes with room in the target encode to |
| Base64.Trailer | KeyStore/KeyNote/base64.c:331-364 | what follows the first = is exactly the padding that the state asks for |
| Base64.SpelledEncoding | KeyStore/KeyNote/base64.c:366-376 | whole digits, right padding and no spare bits make the text the encoding of the bytes decoded |
| Base64.KnDecodeBase64 | KeyStore/KeyNote/base64.c:245-391 | accepts a text exactly if without whitespace it is the encoding of bytes that fit (n places, one more if n is no multiple of 3), and leaves these bytes |
| Folding.SignatureLength | ESP32/SEEMQTT/KeynoteESP.c:106-158 | the text for a key of length n has 15 + n + 14*ceil(max(0, n - 48)/49) characters and leaves room for a NUL in 364 exactly for n <= 278 |
| Folding.FirstRow | ESP32/SEEMQTT/KeynoteESP.c:106-158 | twelve spaces, a quote, the name, as much of the key as fits in 50 columns, then a backslash, a newline, twelve spaces and the rest |
| Folding.FoldedRow | ESP32/SEEMQTT/KeynoteESP.c:128-152 | every further row takes 49 characters |
| Folding.KnEncodeSignture | ESP32/SEEMQTT/KeynoteESP.c:106-158 | fills the buffer with the folded text and NULs, for every key whose text fits |
| Folding.Mystrncpy | KeyStore/KeyNote/lex.kn.c:2716-2780 | copies the unescaped text into the target, within its bounds |
| Folding.ReadOne | KeyStore/KeyNote/lex.kn.c:2725-2779 | one round of the copying loop: escapes, octal numbers and folded lines |
| Folding.EscapedCharacter | KeyStore/KeyNote/lex.kn.c:2738-2772 | a backslash before n, t, r, f is a newline, tab, carriage return, form feed; before any other character that is no octal digit, that character |
| Folding.EscapedNumber | KeyStore/KeyNote/lex.kn.c:2673-2708 | a backslash before three octal digits is the character with this number in eight bits, unless that is 0 |
| Folding.EscapedDigit | KeyStore/KeyNote/lex.kn.c:2673-2708 | so is one before a zero and one octal digit |
| Folding.EscapedNewline | KeyStore/KeyNote/lex.kn.c:2729-2737 | an escaped newline and all whitespace after it leave no trace |
| Folding.UnfoldUndoesFold | KeyStore/KeyNote/lex.kn.c:2716-2780 | the lexer's copy of the quoted folded key is the key |
| Folding.ParseKey | KeyStore/KeyNote/parse_assertion.c:59-97 | returns what stands between the first two quotes without blanks, backslashes and newlines |
| Folding.ParseKeyUndoesFold | KeyStore/KeyNote/parse_assertion.c:59-97 | on the whole signature text this is the key as well |
| AssertionText.KnReadAsserts | KeyStore/KeyNote/environment.c:837-948 | the pieces are the blocks between pairs of newlines that are not blank, every index inside the growing array |
| AssertionText.AssertionsConserve | KeyStore/KeyNote/environment.c:857-945 | in order and without whitespace the pieces are the buffer; none is blank or has two newlines in a row |
| AssertionText.BlocksPartition | KeyStore/KeyNote/environment.c:857-945 | the text is cut between the two newlines of each pair, and only the second one goes |
| SessionTable.Sessions.FindSession | KeyStore/KeyNote/environment.c:410-423 | finds a session exactly if the id is open |
| SessionTable.Sessions.AddSession | KeyStore/KeyNote/environment.c:428-438 | the new session heads the bucket of its id, in front of the old head, and all chains stay well-formed |
| SessionTable.Sessions.FindFreeId | KeyStore/KeyNote/environment.c:454-460 | the search ends with the first id from the counter on, and around, that is not open, unless all ids are |
| SessionTable.Sessions.Init | KeyStore/KeyNote/environment.c:443-466 | opens exactly the first free id from the counter on, and around, makes its session current, and leaves the counter one higher in 32 bits |
| SessionTable.Sessions.Unlink | KeyStore/KeyNote/environment.c:538-555 | takes one session out of its chain, and all chains stay well-formed |
| SessionTable.Sessions.Close | KeyStore/KeyNote/environment.c:500-556 | closes exactly the given id, -1 if it is not open; no session is current afterwards |
| SessionTable.Sessions.BucketIsChain | KeyStore/KeyNote/environment.c:410-438 | every bucket is a doubly linked chain of exactly the open sessions whose ids belong there |
| SessionTable.CounterStays | KeyStore/KeyNote/environment.c:454-462 | over whole runs of opening and closing: the counter is not negative, and so the next search defined, if and only if the id 2147483647 has never been given out |
| SessionTable.CounterRunsOut | KeyStore/KeyNote/environment.c:454-462 | a run after which no session is open and yet none can be opened |
| Environment.Table.Lookup | KeyStore/KeyNote/environment.c:210-230 | the newest value of the name |
| Environment.Table.Add | KeyStore/KeyNote/environment.c:274-340 | the new value shadows the old ones, other names are unaffected |
| Environment.Table.Delete | KeyStore/KeyNote/environment.c:236-267 | the newest value goes and the one it shadowed is back, other names are unaffected |

## Left out

- TrustExactness.QueryExact: one entry for every cycle suffices on each graph; that it is also necessary is stated for the order of visits (TrustTightness.AlwaysRightIff), because particular Licensees fields can make any cycle harmless
- TrustExactness.QueryComputesComplianceValue: the same
- KeyNoteSession.Session.DoQuery: the same; and an empty list of return values, for which the original would count from index -1
- TrustTightness.AlwaysRightIff: is stated where no listed key signed two assertions; where a key signed several, the condition still suffices, but two entries under the same key can be harmless. The fields may also name an action authorizer and a key that signed nothing
- TrustTightness.CycleLoses: says nothing of cycles on which the assertion met first, or the one before it, is a policy
- TrustSearch.Evaluate: memory errors, which make the original return -1 early, cannot happen here
- ProtocolSafety.EpochRecombines: one publisher with one topic and its first connection; after SecDisconnect the verified flags are not cleared, and a second SecConnect promises nothing new
- ProtocolSafety.ConnectedKeyIff: master keys and nonces are secret from everybody else; that IBE, AES and the random numbers keep them so is not part of this model
- ProtocolInvariant.RunKeeps: messages of the publisher to one KeyStore arrive in order; one that is lost holds up those behind it, which others may still deliver as copies
- ProtocolSafety.TakenShareIff: the hash of the publisher's own topic is not all zeros
- ProtocolSafety.FullStoreConnects: is given for one KeyStore, as an example; the exact conditions hold for any number
- Database.Table.AddRow: is stated for the one situation in which Addshare calls it, a known device, a new topic and no row without topic
- KeyStoreNode.KeyStore.KsCallback: the RSA branch and the key-splitting branch, which stores nothing, are missing
- KeyStoreNode.KeyStore.ReceiveShare: the text file that SaveShar writes is not modelled, nor its read of row -1 after a refused share
- SecMqttNode.SecMqtt.SecSessionKeyUpdate: encryption never fails, so the early return after a failed encryption is missing, and so is the credential message
- SessionTable.Sessions.Init: is not called with a negative counter, because the bucket index of the search is undefined in the original then; CounterStays says when that is
- SessionTable.Sessions.FindFreeId: is not called with a negative counter either
- SessionTable.Sessions.FindSession: excludes negative ids whose remainder is not 0, with which the original indexes outside its table
- SessionTable.Sessions.Close: excludes the same ids
- ShareStrings.JoinStrings: lines shorter than the first one, which the original reads past
- ShareStrings.CollectShares: a text without any token, for which the original uses a null pointer, and more than 255 lines, for which its table has no room
- ShareStrings.ExtractSecretFirst: lines shorter than the first one, and texts that CollectShares excludes
- ShareStrings.ExtractSecretAll: lines shorter than the first one, and texts that CollectShares excludes
- AssertionText.KnReadAsserts: a buffer that is longer than the string in it; the original copies its last piece with strdup
- KeyNoteSession.Session.AddAssertion: is not called with the counter at -1, after 2147483648 refusals, when the original would give out the id -1
- KeyNoteSession.Session.FixFields: what the three key fields yield in an environment is a parameter
- KeyNoteSession.Session.RemoveAssertion: is used for moving only; kn_remove_assertion on its own, which makes an assertion unlisted for good, is not followed through later queries
- Base64.KnDecodeBase64: a NULL target, with which the original only counts
- Environment.Table.Lookup: regular-expression names and callback values
- Environment.Table.Add: regular-expression names and callback values
- Conditions programs: regular expressions, floating point and nested exceptions; a Conditions field is a value or an error
- insert_delegation and validate_delgation: text comparisons on untyped buffers; the check is an arbitrary answer that can reset the result to 0
- The generated LALR and flex engines: only the semantic actions over an abstract syntax tree
- AES, RSA, SHA, the pairing-based encryption and the big-number libraries
- The RSA mode of the KeyStore, and its key-splitting mode, which stores nothing
- kn_add_authorizer, kn_remove_authorizer, kn_get_failed, getters, hex coding on its own, intpow, the lexer's list of strings, Median and Max
- malloc failure, memory leaks and freed memory
- Sockets, MQTT client calls, files, timing, debug output and command-line mains
