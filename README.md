# Metered API gateway core, modelled in Dafny

The backend (kaya70875/articlewbackend) serves word, sentence and AI
writing-assistant endpoints and meters them per user. This project models
its core:

- **Quota accounting** (`app/user/user.py`): the per-tier daily limit table,
  tier-name normalisation and `check_request_limit`, which resets a user's
  usage record once a day, refuses with HTTP 402 at the limit and otherwise
  increments the counter. The usage collection is a `UsageLedger` object
  whose `records` map the method updates (module `Quota`).
- **Fast request counter** (`app/lib/request.py`): `track_requests` keeps a
  per-user hash in the key-value store and escalates to the ledger check
  once per batch. The store is a `FastCounter` object with hashes and
  times to live (module `RequestTracking`).
- **AI reply post-processing** (`app/utils/text_helpers.py`, and its
  character-for-character copy `app/utils/helpers.py`):
  `extract_paraphrase_sentences`, `parse_AI_response` and
  `highlight_corrections` (module `TextHelpers`). One model serves both
  copies; the table cites either file.
- **The older copies** in `utils/helpers.py`: a different loop bound, no
  first-character check and no strip in `extract_paraphrase_sentences`,
  and no empty-prompt check in `parse_AI_response` (module
  `LegacyHelpers`). Its `highlight_corrections` is the same code as the
  other two, so `TextHelpers.HighlightCorrections` models it too.
- **Paddle webhook signature check** (`app/utils/signature.py`): the
  `ts=…;h1=…` header parse, the five-second replay window and the
  comparison with an HMAC-SHA256 (RFC 2104 over the SHA-256 of FIPS 180-4)
  that stays abstract (module `Signature`).

Python's own semantics that this code relies on are in module `PyStr`:
`find` returning -1, slice clamping and negative indices, `strip` with
`isspace`, `split(sep)`, `split()`, `join`, non-overlapping `replace(p, "")`,
`str(n)` and `int(s)`. Module `Python` holds `Option`, `Result` and the
exceptions that the code raises or lets propagate. Exceptions are values:
a function that raises returns `Err(e)`.

Some behaviour follows the code rather than the intent its comments
suggest:

- `check_request_limit` never returns normally. A refused request raises
  402. An admitted one writes its increment and then reads
  `is_payment_required`, which was never bound (`UnboundLocalError`).
- So in `track_requests` every batch call ends in an exception, and the
  fast counter is not incremented on that call. Every later call escalates
  again, until the key lapses one day after the last completed call; after
  that the counter cannot be read and every call raises `TypeError`
  (`int(None)`) without reaching the ledger.
- The guard `"<think>" or "</think>" in response_text` is always true.
  Python reads it as `"<think>" or (...)`, and a non-empty literal is
  truthy.
- The older `extract_paraphrase_sentences` cuts the last item one
  character short, because `find` returns -1 for the absent next marker.
- The cleaning in `parse_AI_response` is meant to leave no tags, but each
  `replace` is a single pass and the prompt is deleted last, so a tag can
  survive or be built (see "## Findings").

## Model

| member | source | states |
|---|---|---|
| Quota.LimitsFor | app/user/user.py:90 | a known tier gets its own row of the table and an unknown tier the free row; every row of the table (lines 18-43) has exactly the six request types, each with a positive limit |
| Quota.NormalizeTier | app/user/user.py:64 | lower-casing and space-to-underscore keep the length, turn every space into '_' and every upper-case ASCII letter into its lower-case letter, leave no upper-case letter or space, and keep every other character |
| Quota.NormalizeTierIdempotent | app/user/user.py:64 | normalising a normalised tier name changes nothing |
| Quota.NormalizeTierExamples | app/user/user.py:64 | "Premium Plus" becomes premium_plus and selects that row; "Free" becomes free; an unknown "Gold" falls back to the free row |
| Quota.ResolveTier | app/user/user.py:45-54 | the tier is known exactly when the user exists and has a userType, and it is then the normalised userType; a missing user is HTTP 400 and a missing userType is AttributeError |
| Quota.ResetRecord | app/user/user.py:70-85 | the upserted record has all six counters at 0, reset_date one day after now, every other field of an existing record unchanged, and no field beyond those of the old record and the six counters |
| Quota.UsageLedger.CheckRequestLimit | app/user/user.py:58-113 | outcome and new ledger are those of CheckRequestLimitSpec: tier lookup, reset of a missing or expired record, 402 at or over the limit, otherwise the $inc followed by the unbound-name fault |
| Quota.CheckNeverReturns | app/user/user.py:92-103 | no path returns normally: the error is one of 400, AttributeError, KeyError, 402 and UnboundLocalError; a refusal raises 402 and an admission reaches the unbound is_payment_required |
| Quota.CheckTouchesOnlyItsUser | app/user/user.py:68-98 | only the caller's record may be created or changed; every other user's record stays as it was |
| Quota.TierFailureLeavesLedger | app/user/user.py:64-68 | a missing user (400) or a missing userType (AttributeError) raises before the ledger is read or written |
| Quota.StaleRecordIsResetAndAdmits | app/user/user.py:70-98 | a missing record, one without reset_date or one whose reset_date has passed is reset; the request is then always admitted, its counter ends at exactly increment, the other five are 0, other fields stay |
| Quota.CurrentRecordDecides | app/user/user.py:86-98 | a record whose reset_date is ahead is used unchanged: at or over the limit 402 and nothing is written; below it only the requested counter changes, by exactly increment, and reset_date stays |
| Quota.OvershootBound | app/user/user.py:92-98 | because the pre-increment count is compared, an admitted call leaves the counter at most increment - 1 over the limit |
| Quota.RunWithinPeriod | app/user/user.py:86-98 | within one period a counter c below the limit admits exactly limit - c further single-unit calls and refuses the next |
| Quota.LimitReachedAfterLimitCalls | app/user/user.py:70-98 | from a missing or expired record, limit calls within a day are admitted and the next one is refused with 402, for every tier and request type |
| RequestTracking.DropIfLapsed | app/lib/request.py:13 | a key whose deadline has passed is deleted before any command on it; a live key and every other key are left as they were |
| RequestTracking.HashIncremented | app/lib/request.py:18-20 | hincrby creates a missing hash or field at 0 and adds amount to that field; the hash gains exactly that field, the store gains exactly that key, and no other key or field changes |
| RequestTracking.FastCounter.HGet | app/lib/request.py:13 | hget first drops a lapsed key; it returns a value exactly when the key is live and holds the field, and that value is the stored count |
| RequestTracking.FastCounter.HIncrBy | app/lib/request.py:20 | after dropping a lapsed key, the hashes become HashIncremented of them; the deadlines stay (a recreated key has none) |
| RequestTracking.FastCounter.Expire | app/lib/request.py:21 | after dropping a lapsed key: a missing key is left alone, seconds ≤ 0 deletes the key, otherwise only its deadline changes, to now + seconds |
| RequestTracking.FastCounter.TrackRequests | app/lib/request.py:7-21 | outcome, fast store and ledger are those of TrackSpec: TypeError for a missing, lapsed or field-less key, ZeroDivisionError for request_count 0, the ledger check on a multiple of request_count, then the increments and the deadline one day after now |
| RequestTracking.AfterCheckEffects | app/lib/request.py:16-21 | a raised check propagates with nothing written; otherwise the field rises by 2 when the check returned False and by 1 when it returned True or was skipped, the deadline becomes now + 86400 and no other key or field changes |
| RequestTracking.MissingFieldFails | app/lib/request.py:12-13 | a missing key, a lapsed key or a missing field makes int(None) raise TypeError: the ledger is untouched and the fast store only loses the lapsed key |
| RequestTracking.OffBatchCallCountsLocally | app/lib/request.py:15-21 | a count that is not a multiple of request_count leaves the ledger alone, raises the field by exactly 1 and moves the deadline to now + 86400 |
| RequestTracking.BatchCallEscalates | app/lib/request.py:15-16 | a multiple of request_count (0 included) runs the ledger check with increment request_count; its exception propagates and the fast store is unchanged |
| RequestTracking.EscalationIsPermanent | app/lib/request.py:13-20 | once the count is a multiple of request_count, every later call made while the key is live escalates and fails with the ledger's error (never TypeError), and the fast store never changes |
| RequestTracking.UncountedStaysUncounted | app/lib/request.py:12-13 | a counter that cannot be read at one moment cannot be read at any later one once the failed call has run |
| RequestTracking.LapsedCounterFailsForever | app/lib/request.py:12-13 | from a counter that cannot be read, every later call raises TypeError and the ledger never changes |
| RequestTracking.StuckCounterLapses | app/lib/request.py:13-21 | a stuck batch counter with deadline d, called at non-decreasing times: every call at or before d escalates and fails with the ledger's error, every call after d raises TypeError |
| RequestTracking.LapsedAfterDeadline | app/lib/request.py:12-13 | calls at non-decreasing times all after the key's deadline raise TypeError |
| RequestTracking.EscalationAdvancesLedger | app/lib/request.py:16 | each escalated call below the limit advances the ledger counter by request_count while the fast counter stays put |
| TextHelpers.ExtractedParaphrases | app/utils/text_helpers.py:84-91 | zero sentences gives [] without reading results; otherwise "" raises IndexError, a first character other than '1' raises ValueError, and success yields exactly num_sentences items |
| TextHelpers.ExtractParaphraseSentences | app/utils/text_helpers.py:71-93 | the append loop returns or raises exactly what ExtractedParaphrases says |
| TextHelpers.ExtractedItemsStripped | app/utils/helpers.py:92-96 | every extracted item has no leading or trailing whitespace |
| TextHelpers.InnerItemOfNumberedList | app/utils/text_helpers.py:87-89 | an inner item of "1. s1 2. s2 …" is the text between three characters after "i." and the next marker, stripped: the original item |
| TextHelpers.LastItemOfNumberedList | app/utils/helpers.py:92-94 | the last item runs from three characters after its marker to the end: the original item |
| TextHelpers.ItemOfNumberedList | app/utils/helpers.py:89-96 | item k extracted from a numbered list of plain items is the k-th item |
| TextHelpers.NumberedListRoundTrip | app/utils/text_helpers.py:84-91 | extracting n items from the numbered list of n plain items (1 ≤ n ≤ 9, stripped, no digits) gives the items back |
| TextHelpers.ExtractEdgeCases | app/tests/test_extract_paraphrase_sentences.py:53-68 | ("", 0) gives [] and ("This is a wrong AI response.", 1) raises ValueError |
| TextHelpers.ExtractSingleSentence | app/tests/test_extract_paraphrase_sentences.py:42-51 | "1. This is the single sentence." with one sentence gives that sentence back |
| TextHelpers.ThinkGuard | app/utils/text_helpers.py:110 | the guard is true for every reply, so the else branch never runs |
| TextHelpers.AfterLastClose | app/utils/text_helpers.py:112 | the piece after the last "</think>" holds no "</think>" |
| TextHelpers.CleanedAnswer | app/utils/text_helpers.py:110-120 | the cleaned answer has no leading or trailing whitespace |
| TextHelpers.CloseTagSurvivesCleaning | app/utils/text_helpers.py:119-120 | the reply "</</<think>think>think>" is cleaned to "</think>": the single replace passes leave a tag behind |
| TextHelpers.PromptRemovalBuildsCloseTag | app/utils/text_helpers.py:120 | with prompt "x" the reply "</thxink>" is answered with "</think>": deleting the prompt last builds a tag |
| TextHelpers.EraseTags | app/utils/text_helpers.py:119 | the result holds neither "<think>" nor "</think>", and a text without them is left unchanged |
| TextHelpers.IntendedParseAIResponse | app/utils/text_helpers.py:106-120 | the same errors as parse_AI_response, an answer whenever it gives one, that answer free of both tags, and equal to the code's answer whenever that one is already tag-free |
| TextHelpers.IntendedParseErasesSurvivingTag | app/utils/text_helpers.py:119-120 | on the reply that defeats the code, the intended parse answers "" |
| TextHelpers.ParseAIResponse | app/utils/text_helpers.py:95-121 | no message raises IndexError, no "content" KeyError, empty or None content ValueError, and non-empty content always gives an answer |
| TextHelpers.AfterLastCloseOf | app/utils/text_helpers.py:112 | for x + "</think>" + y with no "</think>" in y, the split's last piece is exactly y |
| TextHelpers.ParseIgnoresBeforeLastClose | app/utils/helpers.py:204-211 | everything up to the last "</think>" is ignored: the answer equals the answer for the tail alone |
| TextHelpers.CleanedPlainAnswer | app/utils/helpers.py:204-214 | a reply with no '<' is only stripped |
| TextHelpers.ParseRemovesPrompt | app/utils/helpers.py:214 | the answer is the concatenation of pieces that joined with the prompt give the cleaned reply and that contain no prompt |
| TextHelpers.ParsePlainAnswer | app/utils/text_helpers.py:115-120 | a reply with no '<' whose stripped form lacks the prompt comes back stripped |
| TextHelpers.ParseFinalAnswer | app/tests/test_parse_ai_response.py:21-26 | "Final answer", alone or after a space, comes back unchanged |
| TextHelpers.ParseEmptyContentTest | app/tests/test_parse_ai_response.py:8-12 | empty prompt content raises ValueError |
| TextHelpers.ParseThinkTagsTest | app/tests/test_parse_ai_response.py:14-33 | whatever precedes the last "</think>" (one or several thinking sections, the echoed prompt), " Final answer" after it yields "Final answer" |
| TextHelpers.HighlightCorrections | app/utils/text_helpers.py:32-69 | both outputs are the entries of the opcodes, rendered red or green, joined by single spaces |
| TextHelpers.OpcodeEntries | app/utils/text_helpers.py:52-67 | equal appends the same unmarked text to both sides; delete a red entry to the original only; insert a green entry to the corrected only; replace a red and a green entry |
| TextHelpers.HighlightStep | app/utils/helpers.py:57-72 | each opcode appends its own entries after those of the opcodes before it, in order |
| TextHelpers.HighlightEntryCounts | app/utils/helpers.py:57-74 | the original side has one entry per replace, delete and equal opcode, the corrected side one per replace, insert and equal opcode |
| TextHelpers.HighlightKeepsWords | utils/helpers.py:49-66 | for opcodes that cover both word lists in order, removing the markup gives each text's words joined by single spaces |
| TextHelpers.UnchangedTextNotHighlighted | app/utils/text_helpers.py:64-69 | when every opcode is equal, neither output has markup: both are the words joined by single spaces |
| LegacyHelpers.LegacyItems | utils/helpers.py:80 | range(1, sentence_count) yields sentence_count - 1 items (none for a count of 1 or less) |
| LegacyHelpers.ExtractParaphraseSentences | utils/helpers.py:68-87 | the loop returns LegacyItems and never raises: no first-character check, no strip |
| LegacyHelpers.SliceToMinusOne | utils/helpers.py:83 | a slice ending at -1 drops the last character of the tail |
| LegacyHelpers.NextMarkerAbsent | utils/helpers.py:82 | after the last of at most nine plain items, find of the next marker is -1 |
| LegacyHelpers.LegacyInnerItem | utils/helpers.py:81-83 | an inner item keeps the space before the next marker |
| LegacyHelpers.LegacyLastItem | utils/helpers.py:82-83 | the last item loses its last character |
| LegacyHelpers.LegacyOfNumberedList | utils/helpers.py:79-87 | with sentence_count = n + 1 on a numbered list of n plain items, it returns n items, each inner one with a trailing space and the last cut one character short |
| LegacyHelpers.ParseAIResponse | utils/helpers.py:124-147 | no message raises IndexError, no "content" KeyError, and None content TypeError (replace(None, "")) exactly when the content is None |
| LegacyHelpers.ParseAgreesWithCheckedVersion | utils/helpers.py:136-146 | for non-empty content the older answer equals the newer one |
| LegacyHelpers.ParseEmptyPrompt | utils/helpers.py:146 | empty content is accepted and removes nothing, where the newer version raises ValueError |
| Signature.SecondField | app/utils/signature.py:25-26 | split('=')[1] exists exactly when the part holds '=', is free of '=', and its absence is IndexError |
| Signature.SignatureFields | app/utils/signature.py:23-26 | succeeds exactly when the header has a ';' and both of its first two parts hold '='; the values are the second '='-pieces of those parts (so hold no '='); otherwise IndexError |
| Signature.VerifyPaddleSignature | app/utils/signature.py:6-40 | a missing or empty header or secret gives False; the only errors are IndexError and ValueError |
| Signature.AcceptedOnlyWithMatchingDigest | app/utils/signature.py:15-40 | True only with both values present, a well-formed header, a timestamp within five seconds and h1 equal to the HMAC of "ts:body" |
| Signature.StaleIsRefused | app/utils/signature.py:29-30 | a timestamp more than five seconds away gives False whatever h1 and whatever the HMAC |
| Signature.SignatureFieldsOf | app/utils/signature.py:23-26 | a header "k1=ts;k2=h1" parses back into (ts, h1); the key names are not checked |
| Signature.FreshHeaderChecksDigest | app/utils/signature.py:29-40 | a "ts=…;h1=…" header within five seconds (exactly five included) is accepted exactly when h1 equals the HMAC of "ts:body" |
| Signature.GenuineSignatureAccepted | app/utils/signature.py:32-40 | a header signed with the shared secret within the window is accepted |
| Signature.HeaderWithoutSemicolonRaises | app/utils/signature.py:23-26 | a header without ';' raises IndexError rather than returning False |
| Signature.IndexErrorIffMalformedHeader | app/utils/signature.py:23-26 | with both values present, IndexError is raised exactly when the header has fewer than two ';'-parts or its first or second part lacks '=' |
| Signature.MalformedTimestampRaises | app/utils/signature.py:29 | a timestamp that int() rejects raises ValueError |
| PyStr.Find | app/utils/text_helpers.py:87-88 | find gives -1 exactly when the pattern is absent, and otherwise its first occurrence |
| PyStr.Slice | app/utils/text_helpers.py:89 | clamped slicing agrees with the plain slice in range, runs to the end for None and stops one short for -1 |
| PyStr.Strip | app/utils/text_helpers.py:89 | the result starts and ends with a non-whitespace character (or is empty) and is no longer than the input |
| PyStr.StripPadded | app/utils/text_helpers.py:112 | strip removes exactly the whitespace margins: a stripped text padded with whitespace comes back unchanged |
| PyStr.StripIdempotent | app/utils/text_helpers.py:115 | stripping twice is stripping once |
| PyStr.SplitWords | app/utils/text_helpers.py:54 | split() gives non-empty words without whitespace that together hold exactly the non-whitespace characters, in order |
| PyStr.SplitWordsLayout | app/utils/text_helpers.py:54 | the text is its words interleaved with whitespace gaps, every gap between two words non-empty: each word is a maximal run of non-whitespace |
| PyStr.SplitOnJoin | app/utils/signature.py:23 | joining the pieces of split(sep) with sep gives the string back |
| PyStr.RemoveAllPieces | app/utils/text_helpers.py:120 | replace(p, "") is the concatenation of the pieces between the occurrences of p, none of which contains p |
| PyStr.ParseIntOfDecimal | app/utils/signature.py:29 | int(str(n)) == n |

## Findings

The code of `parse_AI_response` is modelled as written (`TextHelpers.ParseAIResponse`, and `LegacyHelpers.ParseAIResponse`, which shares the cleaning); the intended behaviour is stated beside it.

| source | as written | input that shows it | evidently intended | confidence | as-written member | corrected member |
|---|---|---|---|---|---|---|
| app/utils/text_helpers.py:119-120 | one `replace("<think>", "")` pass, then one `replace("</think>", "")` pass (the same lines are app/utils/helpers.py:213-214 and utils/helpers.py:145-146) | the reply "</</<think>think>think>" with any prompt absent from it: the answer is "</think>" | the answer holds no tags, as the comment at line 119 says | not executed | TextHelpers.CloseTagSurvivesCleaning | TextHelpers.IntendedParseAIResponse |
| app/utils/text_helpers.py:120 | the prompt is deleted after the tags | the reply "</thxink>" with prompt "x": the answer is "</think>" | the answer holds no tags | not executed | TextHelpers.PromptRemovalBuildsCloseTag | TextHelpers.IntendedParseAIResponse |

## Left out

- The clock, the store connections and the network are parameters or inputs. `datetime.now()` and `time.time()` are the `now` arguments, and the signature clock is a real number (float rounding is not modelled). The users collection is a map, and so are the usage collection (`UsageLedger.records`) and the key-value store (`FastCounter`).
- Concurrency and atomicity of `find_one_and_update`, `$inc` and `hincrby`: calls run one at a time.
- `ObjectId(user_id)` validation and the error it raises for a malformed id are not modelled: ids are strings.
- Quota.NormalizeTier: `str.lower()` is modelled for ASCII letters only, not the full Unicode case mapping.
- A usage record that stores `reset_date` as null makes `metrics.get('reset_date', now) <= now` raise TypeError, which nothing catches; the model's missing `reset_date` stands only for an absent field, which is reset.
- Stored counters that are not integers (Redis strings that `int()` rejects, a missing counter in a usage record other than a KeyError) are not modelled.
- The `WriteError`, `ValueError` and `AttributeError` handlers of `check_request_limit` (app/user/user.py:105-113) never apply to the modelled paths, which raise none of these inside the `try`.
- `difflib.SequenceMatcher` is not part of this model: its opcodes are an input, and the word-preservation lemmas assume opcodes that cover both word lists in order.
- The regex sentence extraction (`extract_sentence`), the chat-completion and HTTP helpers, the Paddle routes, the JWT handling and the NLP modules are not part of this model.
- HMAC-SHA256 and the UTF-8 encoding and decoding in `verify_paddle_signature` are function parameters; `headers.get` and `getenv` are their optional results.
- `abs(time.time() - int(ts))` can raise `OverflowError` for a timestamp too large for a float; the model compares exactly.
- TextHelpers.NumberedListRoundTrip: proved for one to nine items that are stripped and contain no digit, so that every marker is a single digit and no marker text occurs inside an item.
- LegacyHelpers.LegacyOfNumberedList: proved under the same restriction (one to nine plain items).
- A message is a map from keys to an optional string; other value types of `messages[0]["content"]` are not modelled.
- Logging, the timing `print` and the exception messages are left out.
- PyStr.ParseInt: accepts ASCII digits only (one optional sign, surrounding whitespace, underscores between digits); Python's `int()` also accepts the other Unicode decimal digits, which the model rejects.
- Signature.MalformedTimestampRaises: for the same reason, a `ts` written in non-ASCII decimal digits, which Python would parse, counts as malformed here.
- The key-value store sees the same whole-second `now` for every command of one call; Redis's millisecond expiry and time passing between the commands of one call are not modelled.
