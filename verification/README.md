# A Dafny model of the CodeCrusher cracking and session core

CodeCrusher is an attack toolkit for the OWASP Juice Shop training
application. This project models three of its Python files:

- **Cryptography utilities** (`CryptoUtils`):
  - the MD5, SHA-1 and SHA-256 dictionary crackers, and MD5's brute-force fallback over lower-case letters and digits;
  - the weak-encryption breaker, with its ROT13, Caesar and repeating-key XOR decoders and the `_is_likely_plaintext` gate;
  - recognition of a linear congruential generator, with prediction of its next outputs;
  - forging of unsecured JSON Web Tokens (`alg: none`) and HS256 secret guessing;
  - the ECB-mode and key-size fingerprinting of a ciphertext.
- **CAPTCHA solver** (`CaptchaSolver`): the arithmetic solver, the trivia solver with its two answer extractors, and the `solve_captcha_question` dispatcher.
- **Session manager** (`SessionManager`): the in-memory session.
  - It holds users, tokens with their expiry, cookies, and the exploit log.
  - Operations: clearing the session, finding admin credentials, and filtering the exploit history.

Every operation is a pure function, so results are values and never share state with the session (see "## Left out"). The modules are:

| module | file | what it holds |
|---|---|---|
| `Wrappers` | `wrappers.dfy` | `Option` |
| `Text` | `text.dfy` | character classes, `lower()`, `str(int)`, `rstrip`, `split` |
| `Bits` | `bits.dfy` | bytes and Python's `^` |
| `Hex` | `hex.dfy` | `bytes.fromhex`, `hexdigest()` |
| `Base64` | `base64.dfy` | RFC 4648 encodings |
| `Search` | `search.dfy` | the first-match loops every cracker shares |
| `OrderedMap` | `ordered_map.dfy` | Python's insertion-ordered `dict` |
| `Classical` | `classical.dfy` | the ROT13, Caesar and XOR decoders |
| `Plausibility` | `plausibility.dfy` | `_is_likely_plaintext` |
| `WeakEncryption` | `weak_encryption.dfy` | `crack_weak_encryption` |
| `HashCrack` | `hash_crack.dfy` | the hash crackers |
| `Lcg` | `lcg.dfy` | `weak_random_prediction` |
| `Jwt` | `jwt.dfy` | the two JWT attacks |
| `BlockMode` | `block_mode.dfy` | `analyze_crypto_implementation` and `_detect_ecb_mode` |
| `Captcha` | `captcha.dfy` | the CAPTCHA solvers |
| `Session` | `session.dfy` | the session manager |

Whatever the code cannot compute on its own becomes a parameter:

- the digest functions, as `string -> seq<byte>`;
- HS256 signature verification;
- the current time, as `now` in seconds;
- the `exp` claim a JWT library reads from a token.

The model follows what the code does, including where that differs from what its names suggest.

- **Base64 strategy.** The base64 strategy of `crack_weak_encryption` never reports anything. It calls `isprintable()` on a `bytes` value, which has no such method, and a bare `except` swallows the resulting error.
- **Arithmetic solver.** The solver takes its two numbers from the first pattern that matches (`+`, then `-`, `*`, `/`). The operator it then applies is the first of `+ - * /` that occurs anywhere in the question, which need not be the one that matched.
  - With `+` present, the result is always the sum (`OnlyPlusAdds`).
  - A zero divisor makes the solver give up (`DivisionByZero`).
- **Trivia solver.** It answers only the five literal questions. Its pattern loop looks only at callable values, and every value in its table is a string or `None`, so that loop never answers (`SolveText`).
- **Dispatcher.** `solve_captcha_question` never returns `None`: when both solvers fail it returns the first fallback answer, `"42"`.
- **Wordlists.** Both the hash crackers and the JWT brute force read `if not wordlist` as "use the default list", so an empty list behaves like a missing one.

## Model

Paths are relative to the repository root.

| member | source | states |
|---|---|---|
| Search.FirstMatch | src/utils/crypto_utils.py:31-35 | The `for ... if ...: return` scan. It returns nothing exactly when no element passes. A returned element is in the list and passes. When element `k` is the first to pass, element `k` is what is returned. |
| Search.FirstIndex | src/utils/crypto_utils.py:31-35 | A found position passes and every earlier one fails. Nothing is found only when every position fails. |
| Search.FirstMatchAppend | src/utils/crypto_utils.py:31-43 | Scanning two lists one after the other is one scan over their concatenation: the first list's answer wins, otherwise the second's. |
| Search.FirstMatchCongruence | src/utils/crypto_utils.py:29-33 | Two tests that agree on every element find the same element. |
| HashCrack.Wordlist | src/utils/crypto_utils.py:26-27 | A missing or empty wordlist is replaced by the 27 common passwords. A non-empty one is scanned as given. The scanned list is never empty. |
| HashCrack.CrackWithWordlist | src/utils/crypto_utils.py:47-62 | The dictionary scan of SHA-1, SHA-256 and of MD5's first phase. An answer is a listed password whose hex digest equals the lower-cased target. There is no answer exactly when no listed password matches. The first matching entry is the one returned. |
| HashCrack.NonHexTargetUncrackable | src/utils/crypto_utils.py:29-35 | A target with any character that is not a hex digit after lower-casing is never cracked, because `hexdigest()` writes only lower-case hex digits. |
| HashCrack.CaseInsensitiveTarget | src/utils/crypto_utils.py:29 | Cracking a target and cracking its lower-case form give the same result. |
| HashCrack.UnrankRank | src/utils/crypto_utils.py:343-346 | Every string over `a-z0-9` is the one its rank spells out, so no such string is missing from the enumeration. |
| HashCrack.RankUnrank | src/utils/crypto_utils.py:343-346 | The string at rank `i` has rank `i`, so different ranks spell different strings. |
| HashCrack.ProductAt | src/utils/crypto_utils.py:343-346 | `itertools.product(charset, repeat=n)` lists every length-`n` string over the charset, at the position given by its rank. |
| HashCrack.RankOfProduct | src/utils/crypto_utils.py:343-346 | Entry `i` of the product has rank `i`: the listing is in lexicographic charset order, with the last character varying fastest. |
| HashCrack.BruteForceLength | src/utils/crypto_utils.py:38-39 | The lengths `lo` to `hi` contribute `36^lo + ... + 36^hi` candidates. |
| HashCrack.BruteForceAt | src/utils/crypto_utils.py:38-39 | Every candidate has a length in range and is drawn from the charset. It sits after all shorter candidates, at its rank among the strings of its own length. |
| HashCrack.BruteForceIndex | src/utils/crypto_utils.py:38-39 | The length-`n` strings appear as one block, in rank order, after all shorter candidates. |
| HashCrack.BruteForceComplete | src/utils/crypto_utils.py:38-39 | Every string of length `lo` to `hi` over the charset is a candidate. |
| HashCrack.BruteForceSearch | src/utils/crypto_utils.py:38-43 | A found candidate has a length in range, is over the charset and cracks the target. Nothing is found exactly when no string of those lengths over the charset cracks it. |
| HashCrack.CrackMd5 | src/utils/crypto_utils.py:22-45 | A dictionary answer takes priority over brute force, and every answer cracks the target. An answer is a listed word or a 1-to-5-character string over `a-z0-9`. There is no answer exactly when neither the list nor any such string cracks the target. |
| HashCrack.Md5ScanOrder | src/utils/crypto_utils.py:31-43 | The MD5 search is one first-match scan over the wordlist followed by the brute-force candidates. |
| HashCrack.BruteForceMinimal | src/utils/crypto_utils.py:37-43 | A brute-forced answer is the least cracking string. No shorter string cracks the target, and no same-length string earlier in lexicographic order does. |
| HashCrack.FirstCandidateMinimal | src/utils/crypto_utils.py:38-43 | No candidate before the first one that passes a test passes it: neither a shorter one nor an earlier one of the same length. |
| Hex.ToHex | src/utils/crypto_utils.py:32 | `hexdigest()` writes two lower-case hex digits per byte. |
| Hex.FromHexToHex | src/utils/crypto_utils.py:163 | `bytes.fromhex` reads back exactly the bytes that `hex()` wrote. |
| Hex.ToHexInjective | src/utils/crypto_utils.py:32-33 | Different digests have different hex renderings. |
| Hex.FromHexOfDigits | src/utils/crypto_utils.py:385-386 | On text made only of hex digits, `fromhex` succeeds exactly when the length is even, and then yields one byte per pair of digits. |
| Classical.Rot13 | src/utils/crypto_utils.py:139-146 | The output has the same length as the input. Letters stay letters of the same case, and every other character is kept. |
| Classical.Rot13Moves | src/utils/crypto_utils.py:139-146 | Letters `a`-`m` and `A`-`M` move forward by 13 places; letters `n`-`z` and `N`-`Z` move back by 13. |
| Classical.Rot13IsCaesar13 | src/utils/crypto_utils.py:139-157 | On every ASCII string, ROT13 equals Caesar decoding with shift 13. |
| Classical.Rot13Involution | src/utils/crypto_utils.py:139-146 | Applying ROT13 twice gives back the input. |
| Classical.Caesar | src/utils/crypto_utils.py:148-157 | The output has the same length as the input. Upper and lower case are kept, and every non-letter is unchanged. |
| Classical.CaesarStepBack | src/utils/crypto_utils.py:148-157 | Decoding by one moves every letter one place back within its case, with `a` and `A` wrapping round to `z` and `Z`. With `CaesarCompose` this fixes the decoding for every shift. |
| Classical.CaesarCompose | src/utils/crypto_utils.py:148-157 | Decoding with shift `j`, then with shift `k`, equals decoding with shift `j + k`. |
| Classical.CaesarInverse | src/utils/crypto_utils.py:148-157 | Decoding with shift `k`, then with `26 - k`, gives back the text. |
| Classical.XorChar | src/utils/crypto_utils.py:176 | `chr(ord(c) ^ ord(k))` with an ASCII key character is always a valid character, and its code is the xor. |
| Classical.XorByte | src/utils/crypto_utils.py:168 | `chr(b ^ k)` for a byte and an ASCII key byte has a code below 256 equal to the xor. |
| Classical.XorBytes | src/utils/crypto_utils.py:163-170 | Character `i` of the hex branch is byte `i` xored with key byte `i mod len(key)`. |
| Classical.XorChars | src/utils/crypto_utils.py:172-177 | Character `i` of the fallback branch is character `i` xored with key character `i mod len(key)`. |
| Classical.XorCharsInvolution | src/utils/crypto_utils.py:172-177 | Applying the fallback xor twice with one key gives back the text. |
| Classical.XorDecode | src/utils/crypto_utils.py:159-177 | Text that parses as hex yields one character per parsed byte. Character `i` has as its code byte `i` xored with key character `i mod len(key)`, which is below 256. Otherwise the result has the input's length, and xoring it again with the key gives back the input. |
| Classical.XorDecodeHexRoundTrip | src/utils/crypto_utils.py:161-170 | On text that parses as hex, xoring the result's codes with the key again gives back the parsed bytes. |
| Classical.XorDecodeHex | src/utils/crypto_utils.py:159-170 | Even-length text made only of hex digits decodes to half as many characters, each below 256. |
| Bits.XorSelfInverse | src/utils/crypto_utils.py:176 | `(a ^ b) ^ b == a` on non-negative integers. |
| Bits.XorBounded | src/utils/crypto_utils.py:168 | The xor of two values below `2^n` is below `2^n`. |
| Bits.XorKeepsHighBits | src/utils/crypto_utils.py:176 | Xoring with a value below `2^n` leaves every bit from `n` upward unchanged. |
| Plausibility.PrintableCount | src/utils/crypto_utils.py:185 | The count is at most the length, and equals it exactly when every character is printable. |
| Plausibility.PrintableCountAppend | src/utils/crypto_utils.py:185 | The count of two texts one after the other is the sum of their counts, and a single character counts one exactly when it is printable. So the count is the number of printable characters. |
| Plausibility.WordCount | src/utils/crypto_utils.py:190-192 | The count is at most the number of listed words. It is positive exactly when some listed word occurs in the text, which is the only use the source makes of it. |
| Plausibility.IsLikelyPlaintext | src/utils/crypto_utils.py:179-194 | True exactly when three things hold: the text is non-empty, at least four fifths of it is printable, and its lower-case form contains one of the ten common words or the four hint words. |
| Plausibility.CaseInsensitive | src/utils/crypto_utils.py:189-194 | A text and its lower-case form get the same verdict. |
| WeakEncryption.Rot13Results | src/utils/crypto_utils.py:99-109 | ROT13 is reported exactly when the ciphertext is non-empty, and it carries the ROT13 decoding. |
| WeakEncryption.CaesarResults | src/utils/crypto_utils.py:111-122 | Shift `k` is reported exactly when its decoding passes the gate. Entries carry their decodings and are in ascending shift order. |
| WeakEncryption.XorResults | src/utils/crypto_utils.py:124-135 | Key `key` is reported exactly when its decoding passes the gate. Entries carry their decodings and are in key-list order. |
| WeakEncryption.RunStrategies | src/utils/crypto_utils.py:81-137 | The strategies run in their fixed order: ROT13, then Caesar shifts 1 to 25, then the four XOR keys. Each method appears at most once, with the text its decoder produces. No base64 finding ever appears. `total_methods_tried` is the number of results. |
| WeakEncryption.CrackWeakEncryption | src/utils/crypto_utils.py:81-137 | The same report with `_is_likely_plaintext` as the gate. A Caesar shift or XOR key is reported exactly when its decoding looks like plaintext. |
| Lcg.Step | src/utils/crypto_utils.py:241 | One generator step always lands in `[0, m)`. |
| Lcg.TestLcgPattern | src/utils/crypto_utils.py:235-245 | True exactly when there are at least three values and each value after the first is the generator step of the one before it. |
| Lcg.Run | src/utils/crypto_utils.py:218-222 | `count` outputs, none when `count <= 0`. The first output is the step of the last observation, each later output is the step of the one before, and all lie in `[0, m)`. |
| Lcg.FirstFit | src/utils/crypto_utils.py:207-216 | A chosen generator is one of GCC, Microsoft and Park-Miller, and it fits the observations. No generator is chosen exactly when none of the three fits. |
| Lcg.Extrapolate | src/utils/crypto_utils.py:227-231 | Prediction `i` is the last observation plus `(i + 1)` times the last difference. |
| Lcg.WeakRandomPrediction | src/utils/crypto_utils.py:196-233 | Fewer than two observations give no predictions; otherwise there are `max(count, 0)`. With a fitting generator they are its next outputs. Without one they continue the last difference linearly. |
| Lcg.PredictionExtendsOrbit | src/utils/crypto_utils.py:213-223 | With a fitting generator, the observations followed by the predictions still fit it. |
| Lcg.TwoObservationsExtrapolate | src/utils/crypto_utils.py:227-238 | Two observations can never fit a generator, since a fit needs three. They are always extrapolated linearly. |
| Lcg.GccTriedFirst | src/utils/crypto_utils.py:207-216 | The generators are tried in order: when GCC's parameters fit, GCC is used. |
| Lcg.ExtrapolationKeepsStep | src/utils/crypto_utils.py:227-231 | Without a fit, observations and predictions together keep the last step constant. |
| Base64.EncodeUnpadded | src/utils/crypto_utils.py:253-255 | Every three bytes become four characters, and a final one or two bytes become two or three. No `=` appears. |
| Base64.Encode | src/utils/crypto_utils.py:253 | The padded encoding is `4 * ceil(n / 3)` characters long. |
| Base64.DecodeEncodeUnpadded | src/utils/crypto_utils.py:253-259 | Decoding the unpadded encoding gives back the bytes, with either alphabet. |
| Base64.DecodeEncode | src/utils/crypto_utils.py:253-255 | Decoding the padded encoding gives back the bytes, with either alphabet. |
| Base64.StripEncode | src/utils/crypto_utils.py:255 | `rstrip('=')` on the padded encoding leaves exactly the unpadded encoding. |
| Text.RStrip | src/utils/crypto_utils.py:255 | The result is a prefix of the input that does not end in the stripped character. Everything removed is that character. |
| Jwt.Segment | src/utils/crypto_utils.py:253-259 | A segment is the unpadded URL-safe base64 of the JSON text. It contains neither `.` nor `=`. |
| Jwt.ForgeNone | src/utils/crypto_utils.py:247-262 | The token has exactly two dots, ends with a dot and has no `=`. Split at the dots, it is the header segment, the payload segment and an empty signature. |
| Jwt.ForgeNoneRoundTrip | src/utils/crypto_utils.py:247-262 | The first segment of the forged token decodes to `{"alg":"none","typ":"JWT"}` and the second to the payload. The signature is empty. |
| Jwt.BruteForceSecret | src/utils/crypto_utils.py:264-283 | A returned secret is in the scanned list and verifies. Nothing is returned exactly when no listed secret verifies. A missing or empty list means the 19 common secrets. |
| Jwt.UniqueSecretFound | src/utils/crypto_utils.py:273-283 | When exactly one listed secret verifies, it is the one found. |
| Jwt.EarlierSecretWins | src/utils/crypto_utils.py:273-277 | The first listed secret that verifies is the one returned. |
| BlockMode.Blocks | src/utils/crypto_utils.py:391 | `ceil(n / 16)` blocks, each of 1 to 16 bytes, all of them 16 bytes except possibly the last. |
| BlockMode.FlattenBlocks | src/utils/crypto_utils.py:391 | The blocks, put back together, are the data. |
| BlockMode.SetSmallerIffRepeat | src/utils/crypto_utils.py:392 | `len(blocks) != len(set(blocks))` exactly when two blocks are equal. |
| BlockMode.CiphertextBytes | src/utils/crypto_utils.py:384-388 | All-hex text parses exactly when its length is even, giving one byte per pair of digits. |
| BlockMode.DetectEcb | src/utils/crypto_utils.py:381-394 | ECB is flagged exactly when the text decodes and two of its 16-byte blocks are equal. |
| BlockMode.ShortHexNotEcb | src/utils/crypto_utils.py:385-392 | Hex text of at most 32 digits, and the empty text, are never flagged. |
| BlockMode.OddHexNotEcb | src/utils/crypto_utils.py:383-394 | Hex text of odd length fails to parse and is never flagged. |
| BlockMode.HintsFor | src/utils/crypto_utils.py:375-377 | A listed hint is one whose size divides the length. Every hint whose size divides the length is listed. |
| BlockMode.HintsForAppend | src/utils/crypto_utils.py:375-377 | The hints are reported in list order and nothing else is: the hints of two lists one after the other are those of the first list followed by those of the second, and a single hint appears exactly when its size divides the length. |
| BlockMode.KeySizeHintsInOrder | src/utils/crypto_utils.py:368-377 | The report lists the 16-, 24-, 32- and 48-byte hints in that order, each exactly when its size divides the length. |
| BlockMode.Analyze | src/utils/crypto_utils.py:348-379 | The weaknesses are the padding weakness, present exactly when the length is a multiple of 8, followed by the ECB weakness, present exactly when ECB is detected. The recommendations are the ECB advice when ECB is detected and nothing otherwise. The crack attempts are the 16-, 24-, 32- and 48-byte hints in that order, each present exactly when its size divides the text's length, with nothing else listed. |
| BlockMode.HintImpliesPadding | src/utils/crypto_utils.py:358-377 | Any key-size hint comes with the padding weakness, because 16, 24, 32 and 48 are all multiples of 8. |
| Captcha.MatchAtSound | src/utils/captcha_solver.py:26-36 | What the matcher finds at a position is a match of `(\d+)\s*op\s*(\d+)` whose second number is taken whole. |
| Captcha.MatchAtComplete | src/utils/captcha_solver.py:26-36 | Wherever the pattern can match at a position, the matcher finds a match there. |
| Captcha.MatchUnique | src/utils/captcha_solver.py:26-36 | At one position there is only one match whose second number is taken whole. |
| Captcha.MatchAtGroups | src/utils/captcha_solver.py:34-36 | The groups the matcher reports are those of that one match. |
| Captcha.Leftmost | src/utils/captcha_solver.py:34 | A reported start position matches. |
| Captcha.LeftmostFirst | src/utils/captcha_solver.py:34 | No position before the reported one matches. When none is reported, no position matches. |
| Captcha.LeftmostSkips | src/utils/captcha_solver.py:34 | No match starts at a non-digit. |
| Captcha.FindNoneIffNoMatch | src/utils/captcha_solver.py:34-35 | `re.search` fails exactly when the pattern matches nowhere in the text. |
| Captcha.FindSeesOperator | src/utils/captcha_solver.py:34-38 | A successful search has seen its operator in the text. |
| Captcha.FirstPattern | src/utils/captcha_solver.py:33-36 | The returned pattern matches and gives the returned numbers, and every pattern listed before it fails to match. Nothing is returned exactly when no pattern matches. |
| Captcha.FirstPresent | src/utils/captcha_solver.py:38-47 | The `elif` chain picks the first of `+ - * /` present. It picks none exactly when none is present. |
| Captcha.Apply | src/utils/captcha_solver.py:38-45 | The arithmetic fails exactly for `/` with a zero divisor. |
| Captcha.SolveMath | src/utils/captcha_solver.py:19-55 | Any answer is non-empty. The solver agrees with the two-step reading: numbers from the first matching pattern, arithmetic from the first operator present. |
| Captcha.MathLoop | src/utils/captcha_solver.py:33-53 | The pattern loop, with its `continue` and its caught division error, equals that two-step reading. |
| Captcha.EvaluateIsApply | src/utils/captcha_solver.py:38-47 | With an operator present, the `elif` chain applies the first operator present. |
| Captcha.DocumentedExample | src/utils/captcha_solver.py:19-22 | `"What is 3+7?"` is answered `"10"`. |
| Captcha.OnlyPlusAdds | src/utils/captcha_solver.py:36-39 | Once the `+` pattern matches, its two numbers are added, whatever other operators the text holds. |
| Captcha.DivisionByZero | src/utils/captcha_solver.py:44-55 | A zero divisor with `/` as the only operator present gives no answer. |
| Captcha.ExtractWhatIs | src/utils/captcha_solver.py:95-102 | `"42"` exactly when the lower-cased text mentions "ultimate question". Otherwise `"OWASP"` when it mentions "owasp", and nothing otherwise. |
| Captcha.ExtractHowMany | src/utils/captcha_solver.py:104-109 | `"9"` exactly when the lower-cased text mentions both "main characters" and "dunder mifflin". |
| Captcha.ExtractorsIgnoreCase | src/utils/captcha_solver.py:98-107 | Both extractors give the same answer for a text and its lower-case form. |
| Captcha.Solutions | src/utils/captcha_solver.py:63-74 | The table holds the five known questions with their answers, in insertion order, then the two pattern keys with the extractors' results. |
| Captcha.Lookup | src/utils/captcha_solver.py:77-78 | Nothing is found exactly when no key equals the text. A found value belongs to an entry with that key. |
| Captcha.QuestionsDistinct | src/utils/captcha_solver.py:63-74 | The five questions are distinct, and neither pattern key is one of them. |
| Captcha.PatternKeysAnswerNothing | src/utils/captcha_solver.py:72-73 | Asked as questions themselves, "What is" and "How many" get no answer from the extractors. |
| Captcha.SolveText | src/utils/captcha_solver.py:57-93 | The solver answers exactly the five known questions, each with its own answer. Its pattern loop never answers. |
| Captcha.SolveQuestion | src/utils/captcha_solver.py:160-184 | The math answer, otherwise the text answer, otherwise `"42"`. The result is never missing or empty. |
| Text.IntToString | src/utils/captcha_solver.py:50 | `str(n)` starts with a minus sign exactly for negative `n`, and its digits read back as the magnitude of `n`. |
| Text.ParseNatToString | src/utils/captcha_solver.py:36-50 | `int(str(n)) == n` for non-negative `n`. |
| Text.LowerIdempotent | src/utils/captcha_solver.py:98-107 | Lower-casing twice is the same as lower-casing once. |
| OrderedMap.Put | src/core/session_manager.py:51 | After `d[k] = v`, `d.get(k)` is `v` and every other key reads as before. A new key goes last, and an existing key keeps its place. |
| OrderedMap.PutKeepsPositions | src/core/session_manager.py:177 | Writing a key leaves every key already present at its place in iteration order. |
| Session.Fresh | src/core/session_manager.py:19-24 | The initial session has no cookies, tokens, users or exploits. |
| Session.ClearSession | src/core/session_manager.py:112-119 | After clearing, no cookie, token or user can be found and the exploit log is empty. |
| Session.Expiry | src/core/session_manager.py:66-69 | An expiry is recorded exactly when the `exp` claim exists and is non-zero. |
| Session.AddToken | src/core/session_manager.py:61-75 | The token is stored under its identifier with the current time and its expiry. Every other entry is unchanged. |
| Session.GetToken | src/core/session_manager.py:77-90 | A stored token is returned unless an expiry was recorded and the current time is past it. A missing identifier gives nothing. |
| Session.AddTokenThenGet | src/core/session_manager.py:61-90 | A token just added is returned until its recorded expiry has passed, and forever when none was recorded. |
| Session.AddUser | src/core/session_manager.py:48-59 | The user is stored under the email, and every other user is unchanged. A non-empty token is also stored under the tokens, and otherwise the tokens are unchanged. |
| Session.AddCookie | src/core/session_manager.py:92-101 | The cookie is stored under its name with its attributes and the current time. Every other entry is unchanged. |
| Session.GetCookie | src/core/session_manager.py:107-110 | A stored cookie gives its value, and an unknown name gives nothing. |
| Session.GetCookies | src/core/session_manager.py:103-105 | The dictionary lists exactly the names `get_cookie` finds, with the same values. |
| Session.AddCookieThenGet | src/core/session_manager.py:92-110 | After a cookie is added, `get_cookie` returns its value, and every other cookie reads as before. |
| Session.ClearForgets | src/core/session_manager.py:112-119 | After clearing, no cookie, token or exploit history remains, and the admin credentials are the first default. |
| Session.GetAdminCredentials | src/core/session_manager.py:167-182 | The first user in insertion order whose lower-cased email contains "admin", with their password. If there is none, the first default admin. |
| Session.ReAddKeepsAdmin | src/core/session_manager.py:51-56 | Re-adding the admin user keeps its place in the order, so the report gives its new password. |
| Session.NewAdminReported | src/core/session_manager.py:170-182 | An admin user added after users without "admin" in their email becomes the one reported. |
| Session.SaveExploit | src/core/session_manager.py:184-198 | One entry is appended, with the current time and `details or {}`. Earlier entries are kept, and nothing else changes. |
| Session.Filter | src/core/session_manager.py:205 | The filtered entries are exactly the saved entries for that challenge. |
| Session.GetExploitHistory | src/core/session_manager.py:200-206 | A missing or empty challenge gives the whole log. Any other challenge gives exactly the entries for that challenge. |
| Session.SaveThenHistory | src/core/session_manager.py:184-206 | Saving a result appends it to its own challenge's history and leaves every other challenge's history unchanged. |
| Session.FilterKeepsOrder | src/core/session_manager.py:205 | Filtering distributes over concatenation, so the history keeps the order in which entries were saved. |

## Left out

- **Hashing:** the MD5, SHA-1 and SHA-256 functions are parameters `string -> seq<byte>`. HS256 verification inside `jwt.decode` is a parameter `(token, secret) -> bool`. Neither algorithm is modelled.
- **Input and output:** logging and all file input and output are not modelled. This covers `save_session`, `load_session`, `list_sessions` and `delete_session`, with the `saved_at` metadata they write.
- **Excluded operations:**
  - `timing_attack_simulation` depends on wall-clock measurements.
  - `solve_image_captcha` needs PIL.
  - `get_captcha_from_api` makes an HTTP request.
  - `bypass_captcha` builds a fixed table for HTTP requests.
  - The Selenium export and import convert to and from a browser's cookie format.
- **JSON:** `json.dumps` of the payload dictionary is not modelled. The forged token takes the payload as its compact JSON text, which is ASCII as `json.dumps` writes it by default.
- **Time:** `datetime.now()` is a parameter `now`. Every instant is an integer number of seconds, so ISO-format strings, time zones and sub-second precision are not modelled.
- Session.AddUser: `add_user` reads the clock twice, once for the user and once inside `add_token`. The model uses one `now` for both.
- Session.AddToken: the `exp` claim arrives as a parameter, `None` when it is missing or the token cannot be decoded. A value that `datetime.fromtimestamp` rejects as out of range is not modelled separately.
- Text.Lower: `str.lower()` is modelled on ASCII letters only. Python also lower-cases other letters, such as `À`. This affects the plaintext gate, the CAPTCHA extractors and the admin-email test only on non-ASCII text.
- Classical.Caesar: non-ASCII characters are left unchanged. Python's `isalpha()` also accepts letters such as `é`, and the source then maps them onto an ASCII lower-case letter.
- Plausibility.IsLikelyPlaintext: only ASCII space through tilde counts as printable. Python's `isprintable()` also accepts most characters from U+00A0 up, which XOR decodings can produce.
- Captcha.Find: `\d` and `\s` are matched on ASCII only. Python's `re` also accepts other Unicode digits and spaces. Python's limit of 4300 digits on `int()` and `str()` is not modelled.
- Classical.Rot13IsCaesar13: the equation holds for the model's ASCII-only Caesar decoder. In the source it fails on non-ASCII letters: `_rot13_decode` keeps `é`, while `_caesar_decode("é", 13)` turns it into `t`.
- Session.GetCookies: the source returns the session's own cookie dictionary, so a caller that changes the result changes the session. The model returns a value, a snapshot of the cookies.
- Session.GetExploitHistory: without a challenge name the source returns the session's own exploit list, with the same aliasing. The model returns a value. With a challenge name the source builds a new list, as the model does.
- Classical.XorDecode: the key is required to be non-empty ASCII, as all four keys the breaker uses are. The source would raise on an empty key, and would encode a non-ASCII key as UTF-8.
- BlockMode.DetectEcb: non-hex text is decoded with a strict padded base64 decoder. Python's `b64decode` without `validate=True` first discards characters outside the alphabet, so some texts the model rejects would be decoded and checked there.
- **Unused parameters:** the `algorithm` argument of `crack_weak_encryption` and the `algorithm_hint` of `analyze_crypto_implementation` are never read by the source, so the model does not take them.
