# Citrate SDK: a verified model of its key sharing, guards and encodings

These Dafny modules model the parts of the Citrate JavaScript SDK on which keys and money
depend, and prove what those parts are for:

- **Key sharing.** The field GF(2^8), Shamir's scheme over it, and the key manager that carries
  shares to their holders as sealed hex and decimal strings (`Field`, `PolynomialProduct`, `PowerOrder`, `GF256`,
  `Polynomials`, `Shamir`, `Secrecy`, `Text`, `Hex`, `KeyManager`).
- **The leak tripwire.** A second field and interpolator, written apart from the first, and its
  exhaustive searches (`Tripwire`, `LeakSearch`).
- **The deploy payload guard.** JSON texts with their whitespace and escapes, the one-pass scan for
  repeated names, and the recursive scan that also looks into strings (`Json`, `DuplicateKeys`,
  `ScanRendering`, `Unambiguous`, `ShareGuard`).
- **The network guard.** The walk over possibly cyclic provider graphs, the genesis check, and the
  cached check that gates every send under concurrent callers (`Network`, `GuardProtocol`), and how a
  batch of calls is accounted for (`BatchInference`).
- **The WebSocket client** as a state machine over its handlers (`WebSocketClient`).
- **Account abstraction encodings**: user operations, nonces, guardian data and DER signatures
  (`UserOp`, `Kernel`, `Der`).
- **The precompile table** merged from three sources (`Precompiles`).

Methods follow the loops, fields and buffers of the code. Each is proved against a function or
predicate of its inputs or of the old state, and the lemmas are about those. Thrown errors are
`Failure`s. Randomness, the envelope cipher, `JSON.parse`'s rounding of number literals, the
answers of endpoints and the choices of the scheduler are parameters; every theorem holds for all of
them. `dafny verify dfyconfig.toml` checks the whole project.

## Where the code is not what it might be taken for

- `GF256.power` shifts its exponent as a signed 32-bit number. `GF256.Power` is proved for every
  integer exponent, with `EffectiveExponent` giving the one actually used: it is the exponent itself
  exactly from 0 up to 2^31 - 1. `PowerBeyondRange` shows the wrong power at 2^31,
  and `PowerIsRightIff` says when the power is right all the same: when both exponents agree modulo 255.
- A request of the WebSocket client whose `send` throws leaves its timer armed, so its promise
  callbacks are called a second time later. `SecondSettlementIffSendThrew` says that this happens
  exactly for such requests, and `ThrowingSendSettlesTwice` gives a run. The promise ignores the
  second call.
- `disconnect` of the WebSocket client cancels no reconnect timer, so the client may come back by
  itself (`DisconnectedButReconnects`). `StaysDisconnectedIff`: without further calls of `connect` and
  unclean closes it stays away exactly if no such timer was pending. Nor does it close an older socket
  that a connection timeout, an error or a late close let the client forget (`DisconnectedButOpen`);
  `OrderlyDisconnectLeavesNone` says what excludes that.
- The comment on `evaluatePolynomial` speaks of Horner's scheme; the code accumulates powers of x.
  `EvaluatePolynomial` follows the code and is proved equal to Horner's form.
- `verifyShares` accepts any structurally valid set of exactly `threshold` shares, as its comment
  says: through so few points there always is a polynomial. `OneForgedShare`: one forged share in a
  consistent set goes unseen exactly then. `ForgeryIsSeen`: from one up to n - t forged shares are
  always seen, and `SeenBoundIsExact`: in every consistent set n - t + 1 of them can go unseen.
- `batchInference` accepts a batch size such as 1.5. Every input is still called once, but an error in a
  later batch goes by a fractional number. `LabelsNameInputsIff`: the numbers are right exactly for
  whole sizes, or when all inputs fit in one batch.
- `guardianInstallData` compares its threshold with `<` and `>`, which NaN and fractions pass, and
  then writes text that is no hex. `HexIffWhole`: the data is hex exactly for whole thresholds.
- `reconnectAttempts` of the WebSocket client counts scheduled reconnects. The check in the reconnect
  timer never refuses (`ReconnectTimerConnects`); the bound is enforced where the timer is set.

## Model

| member | source | states |
|---|---|---|
| Field.Commutes | src/crypto/FiniteField.ts:56-71 | the product does not depend on the order of its operands, by bilinearity over xor |
| Field.Associates | src/crypto/FiniteField.ts:56-71 | the product is associative |
| Field.Distributes | src/crypto/FiniteField.ts:34-71 | the product distributes over xor on both sides |
| Field.InverseLaw | src/crypto/FiniteField.ts:73-94 | the 254th power of a nonzero element is its inverse |
| Field.FermatField | src/crypto/FiniteField.ts:73-94 | every element is its own 256th power |
| Field.NoZeroDivisors | src/crypto/FiniteField.ts:260-277 | a product vanishes only if a factor does, so Lagrange denominators of distinct points do not |
| PolynomialProduct.MulIsPolynomialProduct | src/crypto/FiniteField.ts:1-4 | the field's product is the carry-less product of two polynomials, reduced modulo x^8 + x^4 + x^3 + x + 1 |
| PolynomialProduct.RemainderXor | src/crypto/FiniteField.ts:1-4 | taking that remainder is linear over xor |
| GF256.Multiply | src/crypto/FiniteField.ts:56-71 | the masked eight-round loop on 32-bit numbers computes the field's product of the low bytes |
| GF256.Inverse | src/crypto/FiniteField.ts:79-94 | fails exactly on zero; otherwise the result times the operand is 1 |
| GF256.Divide | src/crypto/FiniteField.ts:99-107 | fails exactly on a zero divisor; otherwise the quotient times the divisor is the dividend |
| GF256.Power | src/crypto/FiniteField.ts:112-128 | square-and-multiply gives the power, for every exponent the 32-bit shift leaves as it is, and says which power it gives otherwise |
| PowerOrder.SamePowersIff | src/crypto/FiniteField.ts:109-128 | two exponents give the same power of every nonzero element exactly when they agree modulo 255 |
| GF256.PowerIsRightIff | src/crypto/FiniteField.ts:109-128 | the loop is right on every nonzero element exactly when the exponent left by the shift agrees with the given one modulo 255 |
| GF256.PowerBeyondRange | src/crypto/FiniteField.ts:121-126 | at 2^31 the shift makes the exponent negative, and the result is not the power |
| GF256.PowOfSquare | src/crypto/FiniteField.ts:79-94 | squaring the base halves the exponent, the step both loops rest on |
| Polynomials.DivisionLaw | src/crypto/FiniteField.ts:260-280 | division of a polynomial by X - a leaves its value at a |
| Polynomials.TooManyRoots | src/crypto/FiniteField.ts:260-280 | a polynomial with as many distinct roots as coefficients is zero |
| Polynomials.Unique | src/crypto/FiniteField.ts:260-280 | two polynomials of degree below t that agree on t points are equal |
| Polynomials.LagrangeAt | src/crypto/FiniteField.ts:260-280 | Lagrange's sum takes the given value at each given point |
| Polynomials.EvalLagrangePoly | src/crypto/FiniteField.ts:260-280 | Lagrange's sum is a polynomial with as many coefficients as points |
| Polynomials.InterpolantLaw | src/crypto/FiniteField.ts:260-280 | through distinct points goes exactly one polynomial of that length, and Lagrange's sum is its value everywhere |
| Shamir.ValidateShares | src/crypto/FiniteField.ts:193-215 | succeeds exactly on non-empty sets of distinct x in 1..255 with equally long non-empty y; otherwise reports the first fault |
| Shamir.FaultFree | src/crypto/FiniteField.ts:184-192 | a share set is well formed exactly when no share in turn has a fault |
| Shamir.EvaluatePolynomial | src/crypto/FiniteField.ts:247-255 | accumulating powers of x gives the polynomial's value in Horner's form |
| Shamir.BasisValue | src/crypto/FiniteField.ts:265-277 | numerator over denominator of a basis polynomial; refused exactly when the denominator vanishes |
| Shamir.LagrangeInterpolation | src/crypto/FiniteField.ts:260-280 | succeeds exactly on distinct x and then gives the value, at any x, of the one polynomial through the points |
| Shamir.RoundTrip | src/crypto/FiniteField.ts:153-280 | any t or more different shares of a split, in any order, are valid and consistent and give back the secret, for every secret, t, n and coefficients |
| Shamir.BytePolyIs | src/crypto/FiniteField.ts:220-239 | the polynomial the first t shares give is the one all shares lie on, if there is one |
| Shamir.ReconstructionIs | src/crypto/FiniteField.ts:226-235 | for every valid set, consistent or not, each byte is the value at zero of the polynomial of that length through the first t shares |
| Shamir.FirstSharesFit | src/crypto/FiniteField.ts:226-235 | there always is such a polynomial |
| Shamir.AnySubsetAgrees | src/crypto/FiniteField.ts:293-313 | in a consistent set any t shares, in any order, reconstruct the same bytes |
| Shamir.Scheme.Create | src/crypto/FiniteField.ts:135-148 | a scheme exists exactly for integers 1 <= t <= n <= 255 |
| Shamir.BuildPolynomials | src/crypto/FiniteField.ts:161-170 | one polynomial for each secret byte, the byte in front of the coefficients drawn; refused exactly for a non-empty secret without a generator |
| Shamir.EvaluateAll | src/crypto/FiniteField.ts:174-177 | the share buffer filled in place holds every byte polynomial's value at x |
| Shamir.EvaluateShares | src/crypto/FiniteField.ts:172-179 | the shares at 1 to n of the same polynomials, each in a buffer of its own |
| Shamir.Scheme.SplitSecret | src/crypto/FiniteField.ts:153-182 | the shares are those of one fixed polynomial per byte, each in a buffer of its own; without a secure generator it refuses any non-empty secret |
| Shamir.Scheme.ReconstructSecret | src/crypto/FiniteField.ts:220-239 | succeeds exactly on a valid set of at least t shares, with the value at zero of each byte's interpolant, and reports the first fault otherwise |
| Shamir.Scheme.InterpolateByte | src/crypto/FiniteField.ts:233-235 | the value at any x of the polynomial the first t shares give for a byte |
| Shamir.Scheme.FindWrongByte | src/crypto/FiniteField.ts:304-311 | none exactly when the extra share is what the first t predict, otherwise a byte that is not |
| Shamir.Scheme.PredictByte | src/crypto/FiniteField.ts:306-307 | the byte the first t shares predict at another x |
| Shamir.Scheme.VerifyShares | src/crypto/FiniteField.ts:293-313 | true exactly when the set is valid, has t shares, and every byte position has one polynomial of degree below t through all shares |
| Shamir.SubsetDetermines | src/crypto/FiniteField.ts:282-292 | any t shares of a consistent set determine all its polynomials |
| Shamir.ForgeryIsSeen | src/crypto/FiniteField.ts:282-313 | a consistent set in which between one and n - t shares, whichever they are, get another y is no longer consistent, so it is refused |
| Shamir.ForgeryUnseen | src/crypto/FiniteField.ts:282-313 | for any t - 1 x values all other shares of a consistent set can be altered so that it stays consistent |
| Shamir.SeenBoundIsExact | src/crypto/FiniteField.ts:282-313 | in every consistent set n - t + 1 shares can be altered unseen, so n - t is the largest number always seen |
| Shamir.OneForgedShare | src/crypto/FiniteField.ts:282-292 | one forged share in a consistent set leaves it consistent exactly when there are t shares in all |
| Shamir.ConsistentIffPredicted | src/crypto/FiniteField.ts:282-292 | all shares lie on one such polynomial exactly when each extra share is what the first t predict |
| Shamir.AtMost255 | src/crypto/FiniteField.ts:193-215 | a valid share set has at most 255 members |
| Shamir.ReconstructSecretBytes | src/crypto/FiniteField.ts:331-339 | inferring the total from the shares adds no refusal for valid input and drops none for invalid input |
| Secrecy.OneCoefficientList | src/crypto/FiniteField.ts:153-182 | for distinct nonzero x, any values there and any secret byte, exactly one list of as many coefficients fits |
| Secrecy.Fitting | src/crypto/FiniteField.ts:153-182 | for every byte of a guessed secret the one coefficient list that fits what was seen |
| Secrecy.CoalitionLearnsNothing | src/crypto/FiniteField.ts:6-15 | to t - 1 holders every secret of that length is explained by exactly one choice of coefficients |
| Secrecy.MaskExists | src/crypto/FiniteField.ts:153-182 | for any constant term some coefficients, as many as the threshold allows, make the polynomial vanish on the coalition |
| Secrecy.MasksExchange | src/crypto/FiniteField.ts:6-15 | adding such masks to the coefficients of one secret gives coefficients of the other with the same shares for the coalition, and adding them again leads back |
| Secrecy.AnyCoalitionLearnsNothing | src/crypto/FiniteField.ts:6-15 | for every coalition below the threshold and any two secrets of one length there are masks that exchange, one to one and in both directions, the coefficient choices giving the coalition the same shares |
| Tripwire.GfMul | scripts/keyshare-leak-tripwire.js:31-43 | the branching loop computes the same product as the SDK's masked one |
| Tripwire.GfInv | scripts/keyshare-leak-tripwire.js:45-50 | the 254-fold product equals the SDK's inverse, and is absent exactly at zero |
| Tripwire.Weight | scripts/keyshare-leak-tripwire.js:60-69 | the weight of a point at zero, absent exactly when two low bytes coincide |
| Tripwire.AddPoint | scripts/keyshare-leak-tripwire.js:70 | adds one point's summand to every byte in place |
| Tripwire.InterpolateAtZero | scripts/keyshare-leak-tripwire.js:53-73 | the value at zero of each byte's interpolant, absent exactly for unequal lengths or coinciding x |
| LeakSearch.ChoicesExact | scripts/keyshare-leak-tripwire.js:96-106 | every choice of that many positions is produced once and nothing else is |
| LeakSearch.AllChoicesExact | scripts/keyshare-leak-tripwire.js:93-108 | every non-empty choice within the bound is produced once and nothing else is |
| LeakSearch.Extend | scripts/keyshare-leak-tripwire.js:96-106 | the recursive generator yields the elements at those choices, in that order, behind what it was given |
| LeakSearch.Subsets | scripts/keyshare-leak-tripwire.js:93-108 | the elements at every non-empty choice of positions up to the bound, each choice once |
| LeakSearch.Eq | scripts/keyshare-leak-tripwire.js:87-91 | true exactly for equal bytes |
| LeakSearch.ExplicitLeak | scripts/keyshare-leak-tripwire.js:167-171 | reports a leak exactly when some choice of up to 8 explicit shares interpolates to the key |
| LeakSearch.AgreesWithSdk | scripts/keyshare-leak-tripwire.js:53-73 | on every valid share set the tripwire's interpolation is the SDK's reconstruction from all of it |
| LeakSearch.SplitKeyIsReported | scripts/keyshare-leak-tripwire.js:167-171 | whenever the list contains t <= 8 different shares of a split of the key, anywhere and among anything, some choice reveals it |
| LeakSearch.Carry | scripts/keyshare-leak-tripwire.js:194-197 | resetting the full digits and raising the next counts one further in base 8 |
| LeakSearch.Advance | scripts/keyshare-leak-tripwire.js:194-197 | steps to the next assignment, and stops exactly after the last |
| LeakSearch.BareSubset | scripts/keyshare-leak-tripwire.js:187-198 | without a hit every assignment in 1..8 to the k values is tried exactly once |
| LeakSearch.BareLeak | scripts/keyshare-leak-tripwire.js:186-199 | reports a leak exactly when some choice of up to 3 candidates under some assignment interpolates to the key |
| LeakSearch.BareSplitIsReported | scripts/keyshare-leak-tripwire.js:173-199 | whenever the candidates contain the pairwise different y of t <= 3 shares of a split with x in 1..8, some choice under some assignment reveals the key |
| Text.ParseNumeral | src/crypto/KeyManager.ts:274 | reading a numeral gives back the number it was written from |
| Hex.BytesToHex | src/crypto/CryptoManager.ts:268-274 | two lower-case digits a byte, which parse to that byte |
| Hex.HexToBytes | src/crypto/CryptoManager.ts:282-293 | succeeds on exactly the strict grammar, each byte being the number of its two digits, and throws on anything else |
| Hex.RoundTrip | src/crypto/CryptoManager.ts:268-293 | decoding inverts encoding |
| Hex.DecodeThenEncode | src/crypto/CryptoManager.ts:268-293 | encoding inverts decoding up to the prefix and the digits' case |
| KeyManager.PlanKeySharing | src/crypto/KeyManager.ts:193-241 | sharing is off exactly at threshold 0; a plan names one different valid holder for each share; every other configuration is refused, with an error that names a fault it has |
| KeyManager.WrapKeyShares | src/crypto/KeyManager.ts:244-258 | envelope i seals share i for holder i, and every share buffer ends up zeroed |
| KeyManager.UnwrapKeyShare | src/crypto/KeyManager.ts:266-275 | succeeds exactly for the named holder's own valid envelope, with each refusal told apart; x and threshold parse to the numbers of the envelope |
| KeyManager.HolderOpensItsShare | src/crypto/KeyManager.ts:244-275 | a holder that unwraps its own envelope gets, as text, the very share sealed for it and the threshold of the plan |
| KeyManager.ParseShares | src/crypto/KeyManager.ts:576-581 | succeeds exactly when every x is a short decimal and every y strict hex; otherwise names the fault of the first other share |
| KeyManager.ReconstructKeyFromShares | src/crypto/KeyManager.ts:562-584 | succeeds exactly on a threshold in 1..255, enough shares, and valid ones; every refusal is told apart |
| KeyManager.HoldersRecoverKey | src/crypto/KeyManager.ts:193-275 | any t distinct holders who unwrap their envelopes reconstruct the key, through hex, decimal and wiped buffers |
| Json.UnescapeIff | src/crypto/shareGuard.ts:74-76 | decoding a name gives exactly the code units its text writes, plain, by a two-character escape or by four hex digits (section 7 of RFC 8259) |
| DuplicateKeys.SkipString | src/crypto/shareGuard.ts:71-72 | stops where the string that was opened ends |
| DuplicateKeys.HasDuplicateJsonKeys | src/crypto/shareGuard.ts:57-83 | the loop with its stack of frames is the recursive scan of the text |
| DuplicateKeys.DupFieldsIff | src/crypto/shareGuard.ts:74-78 | collecting names finds a duplicate exactly when two fields have the same name or a value holds one |
| DuplicateKeys.DupIffRepeatedName | src/crypto/shareGuard.ts:53-56 | the recursion on the tree finds a duplicate exactly when some object in it has two members of one decoded name |
| ScanRendering.SkipBody | src/crypto/shareGuard.ts:71-72 | the loop that skips a string body stops at its closing quote, for every escape |
| ScanRendering.ScanNode | src/crypto/shareGuard.ts:57-83 | in any context the scan of a rendered value gives the tree's verdict or goes on behind it with the stack as before |
| ScanRendering.ScanDecides | src/crypto/shareGuard.ts:53-83 | on every JSON text, whatever its whitespace, escapes and nesting, the scan answers whether some object repeats a decoded name, and decoding a name never throws |
| Unambiguous.OneTree | src/crypto/shareGuard.ts:93-99 | a JSON text has only one syntax tree, so parsing is a function |
| ShareGuard.DecodeIs | src/crypto/shareGuard.ts:144-149 | parsing gives the value of the one tree that renders to the text |
| ShareGuard.DecodingShortens | src/crypto/shareGuard.ts:140-153 | every string inside a decoded value is shorter than the text, so the scan of strings terminates |
| ShareGuard.AcceptsIffNothingRefused | src/crypto/shareGuard.ts:140-177 | the scan accepts exactly when no node reachable through containers and decodable strings is a text that repeats a name, a container deeper than 32, or a record that writes a share, holds an envelope or has a listed name; all of these are said without the tests the scan makes |
| ShareGuard.BytesLikeLengthIff | src/crypto/shareGuard.ts:36-51 | a value is measured as n bytes exactly when some n bytes are written by it: as themselves, as a list of numbers, signed or not, as a serialised buffer, or keyed "0" to "n-1" |
| ShareGuard.ShareYLikeIff | src/crypto/shareGuard.ts:16-24 | the lenient match holds exactly when 32 hex digits stand somewhere with only white space between them |
| ShareGuard.LooksLikeShareIff | src/crypto/shareGuard.ts:104-118 | the structural test holds exactly of the records that write an x in 1..255 and a y of 16 bytes or more, in either case of the names, or hold an envelope with a holder key |
| ShareGuard.RecordAcceptedIff | src/crypto/shareGuard.ts:155-176 | a record is accepted exactly when it is not too deep, writes no share, holds no envelope, has none of the four listed names and everything in it is accepted one level down |
| ShareGuard.TextAcceptedIff | src/crypto/shareGuard.ts:141-153 | a string is accepted exactly when it is no JSON, or JSON that repeats no name and whose value is accepted one level down |
| ShareGuard.PayloadAcceptedIff | src/crypto/shareGuard.ts:89-102 | a payload goes through exactly when it is JSON, repeats no name and holds nothing refused at any reachable node |
| ShareGuard.AcceptedHigherUp | src/crypto/shareGuard.ts:140-177 | acceptance at a depth implies acceptance at every smaller depth |
| ShareGuard.StrictHexIsShareY | src/crypto/shareGuard.ts:16-24 | the lenient y match holds for every y the strict parser reads as 16 bytes or more |
| ShareGuard.ParserInsideGuard | src/crypto/shareGuard.ts:104-118 | whatever the share parser reads as a share of 16 bytes or more, the guard takes for a share |
| ShareGuard.AcceptedPayloadHoldsNoShare | src/crypto/shareGuard.ts:93-102 | an accepted payload holds no object, also inside strings, that the share parser reads as a share of such a key |
| ShareGuard.SplitShareIsRefused | src/crypto/shareGuard.ts:104-177 | a share of a split key with its y in hex is refused wherever in the value it stands |
| ShareGuard.WrittenShareIsRefused | src/crypto/shareGuard.ts:36-51 | a share of a split key is refused wherever it stands when its y is written as bytes, as a list of numbers, as a serialised buffer or keyed by its indices |
| ShareGuard.FormsWriteTheirBytes | src/crypto/shareGuard.ts:36-51 | serialised lists, buffers and typed arrays of any bytes, unsigned and signed, are such writings of them |
| ShareGuard.EnvelopeIsRefused | src/crypto/shareGuard.ts:117 | a record with an envelope and a holder key, in either spelling, is refused wherever it stands |
| ShareGuard.ListedNameIsRefused | src/crypto/shareGuard.ts:8-9 | a record with one of the four listed names is refused wherever it stands |
| ShareGuard.LastMemberWins | src/crypto/shareGuard.ts:53-56 | decoding an object keeps exactly its names, each with the value of its last member |
| ShareGuard.DuplicatesAreRepeatedNames | src/crypto/shareGuard.ts:53-83 | the duplicate check on a text is about the objects of its own tree |
| Network.Walker.Walk | src/utils/network.ts:79-101 | the walk ends on every heap; it succeeds exactly when every continuation of the path is sound, and adds exactly the leaves below, in the order they are first met; each error names a fault of some continuation |
| Network.EndpointsOf | src/utils/network.ts:76-104 | succeeds exactly when no cycle, no nesting beyond the bound and no malformed node is reachable, with each reachable leaf once, from left to right; otherwise some path ends in the fault the error names |
| Network.ResolveExpectedGenesis | src/utils/network.ts:42-54 | no check exactly for null, the book's hash exactly when nothing is given, otherwise the given 32-byte hash in lower case, and a failure exactly for text that is none in any case |
| Network.CaseDoesNotMatter | src/utils/network.ts:42-54 | an endpoint passes exactly if it spells the given hash, whatever the case on either side, and resolving twice changes nothing |
| Network.AssertOneGenesis | src/utils/network.ts:119-144 | passes exactly when the endpoint itself reports the expected hash, and each error says what it reported instead |
| Network.AssertGenesis | src/utils/network.ts:154-175 | resolves exactly when the graph does and every reachable leaf reports the expected hash; of several endpoints the error names the first that does not |
| GuardProtocol.StepKeeps | src/client/CitrateClient.ts:221-231 | every step of every call keeps the guard's invariant |
| GuardProtocol.GuardHolds | src/compute/refunds.ts:127-190 | in every interleaving no transaction is sent and no view called before a check has succeeded; at most one check is unsettled; a failed one is not kept and a successful one is |
| GuardProtocol.SuccessIsFinal | src/client/CitrateClient.ts:215-231 | once a check has succeeded no run starts another |
| GuardProtocol.ClaimsReadAlways | src/compute/refunds.ts:179-190 | in every run each call sends at most once, and a claim whose view is under way has called it |
| GuardProtocol.StoryHolds | src/compute/refunds.ts:156-190 | in every run each call is where its kind allows, and every transaction has the views and answers behind it that its kind demands |
| GuardProtocol.ClaimSendsOnlyWhatIsOwed | src/compute/refunds.ts:179-190 | in every run only senders and claims send; before the transaction of a claim stands that claim's own view, and the view answered a positive amount |
| GuardProtocol.EveryCallIsTold | src/compute/refunds.ts:127-190 | in every run what has happened to a call (its check passed or not, its address came or not, the check of its view passed or not, what its view answered) decides where it is, whether it has called the view and whether it has sent |
| GuardProtocol.ClaimSendsExactlyWhatIsOwed | src/compute/refunds.ts:179-190 | in every run a claim has sent, and succeeded, exactly if its view answered a positive amount, and has ended with nothing to claim exactly if it answered 0 |
| GuardProtocol.SendSucceedsExactlyBySending | src/client/CitrateClient.ts:400-406 | in every run a plain transaction is sent exactly if its call has succeeded, which is exactly if it came past its own check |
| GuardProtocol.PassedCallGoesOn | src/compute/refunds.ts:156-189 | resuming a call behind a fulfilled check sends its transaction, calls its view, also that of a claim, or asks for the address |
| GuardProtocol.EveryCheckIsTold | src/compute/refunds.ts:148-151 | in every run a check is fulfilled, rejected or pending exactly as its assertion settled and its handler ran |
| GuardProtocol.CallAwaitsLiveCheck | src/compute/refunds.ts:127-154 | a call awaits the newest check, which is not a rejected one, and a new check is started exactly if all earlier ones were rejected |
| GuardProtocol.NoGenesisNoChecks | src/compute/refunds.ts:130 | without an expected genesis no check is ever started and calls await none |
| GuardProtocol.GuardedClient.Guarantee | src/compute/refunds.ts:104-190 | every object, after any sequence of its methods, has the guard's guarantees, those of claims, and every call where its history puts it |
| GuardProtocol.GuardedClient.VerifyNetwork | src/compute/refunds.ts:128-154 | the promise handed out, and the field left behind, are those of the protocol's step |
| GuardProtocol.GuardedClient.StartCall | src/client/CitrateClient.ts:326-331 | a call begins by awaiting the kept check or a new one |
| GuardProtocol.GuardedClient.AssertionSettles | src/client/CitrateClient.ts:225 | a check's own promise settles; a failure keeps the field until the handler runs |
| GuardProtocol.GuardedClient.CatchHandler | src/client/CitrateClient.ts:225-228 | the handler drops the kept check |
| GuardProtocol.GuardedClient.ResumeCall | src/client/CitrateClient.ts:400-406 | behind its check a call sends, views or goes on, and behind a failed one it fails |
| GuardProtocol.GuardedClient.AddressArrives | src/compute/refunds.ts:188 | with the signer's address a claim starts its view, which verifies again |
| GuardProtocol.GuardedClient.ViewAnswers | src/compute/refunds.ts:188-189 | the view's answer moves the call as the protocol says: with `ClaimSendsExactlyWhatIsOwed`, a claim sends exactly when something is owed |
| BatchInference.OrderDoesNotMatter | src/client/CitrateClient.ts:470-513 | totals, results and labelled errors of a set of calls do not depend on the order in which they settle |
| BatchInference.AccountIs | src/client/CitrateClient.ts:470-513 | the totals are the sums over all inputs, the results those of exactly the inputs whose call gave one, the errors the labelled messages of exactly those whose call threw |
| BatchInference.InputsApart | src/client/CitrateClient.ts:478-513 | every input is in exactly one of the two lists, once |
| BatchInference.BatchSettled | src/client/CitrateClient.ts:478-513 | when a batch has settled, exactly the inputs up to its end have been accounted for |
| BatchInference.LabelsNameInputsIff | src/client/CitrateClient.ts:475-502 | the numbers written for inputs are their own exactly when the batch size is whole or all inputs fit in one batch |
| BatchInference.WrongLabel | src/client/CitrateClient.ts:500-502 | with size 1.5, which validation accepts, input 1 goes by the number 1.5 |
| BatchInference.RunBatch | src/client/CitrateClient.ts:478-513 | each settled call adds its result and costs, or an error under the batch's start plus its index |
| BatchInference.NextBatch | src/client/CitrateClient.ts:479-513 | after a batch exactly the inputs up to its end are called and accounted for |
| BatchInference.RunBatches | src/client/CitrateClient.ts:478-519 | every input is called once in order and accounted for once, whatever the batch size, whole or not |
| BatchInference.ValidateProbe | src/utils/validation.ts:162-185 | accepts exactly a model id of the allowed characters, an input of allowed size and an allowed batch size, and otherwise says which of them is at fault |
| BatchInference.Run | src/client/CitrateClient.ts:435-529 | refuses before any call exactly when encryption cannot be applied or an input is invalid, naming the first; otherwise counts, totals, results and errors are those of the inputs whose call gave a result and of those whose call threw |
| WebSocketClient.StepKeeps | src/client/WebSocketClient.ts:57-176 | every handler keeps ids, timers, settlements and attempts in order |
| WebSocketClient.RequestsSettleOnce | src/client/WebSocketClient.ts:153-176 | in every run ids are fresh, a timer is armed exactly while its request is pending, and a request is settled once after that, plus once more exactly when its send threw; attempts stay within the bound |
| WebSocketClient.SettledBecause | src/client/WebSocketClient.ts:127-274 | in every run a request is resolved exactly if a response with its id and no error came while it was armed, rejected by the peer exactly if one with an error did, timed out exactly if its own timer fired, closed exactly if `disconnect` was called then |
| WebSocketClient.EventSettles | src/client/WebSocketClient.ts:127-274 | any event disarms and settles exactly the armed requests it concerns, issues at most the next one, and leaves every other request as it was |
| WebSocketClient.ResponseSettlesItsRequest | src/client/WebSocketClient.ts:258-274 | a response takes exactly the request it names out of the pending ones and logs one settlement of it; nothing else in the state changes |
| WebSocketClient.UnknownResponse | src/client/WebSocketClient.ts:262-263 | a response that names no armed request changes nothing |
| WebSocketClient.ReconnectsAreBounded | src/client/WebSocketClient.ts:84-96 | in every run the attempts are the unclean closes since the last opening, up to the bound, and one reconnect timer was set for each close that found fewer |
| WebSocketClient.ThrowsAreIssued | src/client/WebSocketClient.ts:153-176 | the log tells of a throw exactly for the requests whose issuing call threw in `send` |
| WebSocketClient.SecondSettlementIffSendThrew | src/client/WebSocketClient.ts:153-176 | a request is settled once when its timer is gone, and once more exactly if the call that issued it threw |
| WebSocketClient.ThrowingSendSettlesTwice | src/client/WebSocketClient.ts:166-175 | a run in which one request's callbacks are called twice |
| WebSocketClient.DisconnectSettlesAll | src/client/WebSocketClient.ts:127-141 | after a disconnect nothing is pending, no request timer is armed and every issued request is settled |
| WebSocketClient.DisconnectedButReconnects | src/client/WebSocketClient.ts:127-141 | a run in which a reconnect scheduled before a disconnect opens a new socket after it |
| WebSocketClient.StaysDisconnectedIff | src/client/WebSocketClient.ts:127-141 | after a disconnect nothing but `connect` and unclean closes makes a new socket exactly when no reconnect timer was pending |
| WebSocketClient.LeftLiveIff | src/client/WebSocketClient.ts:127-133 | a disconnect leaves a socket open or connecting exactly if it was so and not the current one |
| WebSocketClient.DisconnectedButOpen | src/client/WebSocketClient.ts:66-115 | a run that ends with a disconnect and an open socket |
| WebSocketClient.OrderlyDisconnectLeavesNone | src/client/WebSocketClient.ts:57-133 | if nothing ends the connecting early in a run, a disconnect leaves no socket open or connecting |
| WebSocketClient.ReconnectTimerConnects | src/client/WebSocketClient.ts:358-368 | a reconnect timer only runs while attempts are allowed, so it always tries to connect |
| WebSocketClient.Client.Guarantee | src/client/WebSocketClient.ts:29-176 | every client, after any sequence of its handlers, has fresh ids, timers for exactly the pending requests, the settlements due and bounded attempts |
| WebSocketClient.Client.TryConnect | src/client/WebSocketClient.ts:57-70 | opens a new socket unless connected or connecting; if the socket cannot be made nothing changes |
| WebSocketClient.Client.Connect | src/client/WebSocketClient.ts:57-122 | the same as an event of its own |
| WebSocketClient.Client.OnOpen | src/client/WebSocketClient.ts:72-78 | an open socket resets the attempts |
| WebSocketClient.Client.OnClose | src/client/WebSocketClient.ts:84-96 | an unclean close schedules a reconnect exactly while attempts remain |
| WebSocketClient.Client.OnError | src/client/WebSocketClient.ts:98-107 | an error ends the connecting and nothing else |
| WebSocketClient.Client.OnConnectionTimeout | src/client/WebSocketClient.ts:110-115 | so does an armed connection timeout, of whichever attempt |
| WebSocketClient.Client.OnReconnectTimer | src/client/WebSocketClient.ts:361-367 | the protocol's reconnect step |
| WebSocketClient.Client.RejectPending | src/client/WebSocketClient.ts:135-140 | disarms and rejects each pending request in order and forgets them all |
| WebSocketClient.Client.Disconnect | src/client/WebSocketClient.ts:127-141 | lets go of the socket, closing it, and rejects all pending requests; no reconnect timer is touched |
| WebSocketClient.Client.SendMessage | src/client/WebSocketClient.ts:153-176 | issues the next id with its timer exactly when the socket is open |
| WebSocketClient.Client.HandleMessage | src/client/WebSocketClient.ts:258-274 | settles, disarms and removes exactly the armed request with the id of the response, with the outcome its error says; any other response changes nothing |
| WebSocketClient.Client.OnTimeout | src/client/WebSocketClient.ts:167-170 | removes and rejects the request whose timer fired |
| UserOp.PackUint128Pair | src/aa/userop.ts:34-42 | succeeds exactly for two 128-bit halves, with a 32-byte word that splits into the same halves |
| UserOp.SplitUint128Pair | src/aa/userop.ts:195-203 | succeeds exactly on a 32-byte word whose halves are numbers, and then they make up the number of the word |
| UserOp.SplitThenPack | src/aa/userop.ts:34-42 | packing the halves of any word again gives that word, digits in lower case |
| UserOp.BuildPackedUserOp | src/aa/userop.ts:132-147 | succeeds exactly for 128-bit limits and fees; the verification limit and the priority fee are the high halves of their words, and all other fields are the given ones |
| UserOp.ToRpcReads | src/aa/userop.ts:209-244 | reading succeeds exactly on two words and absent or long enough paymaster data; each limit and fee is the number of its own 32 digits, verification limit and priority fee first |
| UserOp.PaymasterReads | src/aa/userop.ts:230-241 | the address is the first 20 bytes, the limits are the numbers at bytes 20 and 36, the data begins at byte 52 |
| UserOp.PaymasterLayout | src/aa/userop.ts:66-78 | behind the paymaster stand both limits of 16 bytes and the category byte, so the category is at byte 52; refused exactly for limits beyond 128 bits |
| UserOp.InitCodeLayout | src/aa/userop.ts:108-110 | the factory first, then its data |
| UserOp.FactoryRoundTrip | src/aa/userop.ts:108-110 | unpacking the init code names the factory and its data, digits in lower case |
| UserOp.PaymasterRoundTrip | src/aa/userop.ts:66-78 | unpacking the paymaster data names the paymaster, both limits and the category byte |
| UserOp.PackingRoundTrip | src/aa/userop.ts:132-244 | every in-range operation, with or without factory and paymaster, is recovered in full from its wire form; `BuildPackedUserOp` and `ToRpcReads` fix the layout in between |
| Kernel.ComposeNonce | src/aa/kernel.ts:72-80 | succeeds exactly for a 192-bit key and a 64-bit sequence, with a 256-bit nonce from which division gives both back |
| Kernel.NonceDecodes | src/aa/kernel.ts:55-80 | a composed nonce decodes to mode 0, type 1, the validator, the key and the sequence over all 256 bits |
| Kernel.NeverTheRootNonce | src/aa/kernel.ts:41-80 | it is never a nonce of the root validator |
| Kernel.RootNonceDecodes | src/aa/kernel.ts:37-46 | a root nonce exists exactly for a 64-bit sequence and decodes to zeros and that sequence |
| Kernel.NonceIsUnique | src/aa/kernel.ts:55-80 | two nonces are equal exactly when validator, key and sequence are, an address counting up to the case of its digits |
| Kernel.Append | src/aa/kernel.ts:299-308 | the addresses in order behind the head, refused exactly when one repeats up to case |
| Kernel.GuardianInstallData | src/aa/kernel.ts:286-310 | for every number as threshold: succeeds exactly for 2 to 7 different guardians and a threshold that neither comparison refuses, with threshold, count and addresses in order; each refusal told apart |
| Kernel.HexIffWhole | src/aa/kernel.ts:294-302 | the data of hex addresses and an accepted threshold is hex exactly when the threshold is whole |
| Kernel.NaNIsAccepted | src/aa/kernel.ts:294-302 | NaN passes both comparisons and is written into the data |
| Kernel.GuardianDataLength | src/aa/kernel.ts:281-285 | 2 + 20 N bytes |
| Kernel.GuardianDataInjective | src/aa/kernel.ts:286-310 | the data is equal exactly for equal thresholds and guardians |
| Kernel.GuardianDataReads | src/aa/kernel.ts:281-305 | the first byte is the threshold, the second the number of guardians, and guardian i stands at byte 2 + 20 i |
| Der.ReadInt | src/aa/webauthn.ts:69-83 | the number and the offset behind it, or which of tag and length is wrong |
| Der.ParseDerEcdsaSignature | src/aa/webauthn.ts:62-87 | the two numbers read one behind the other, or the first error |
| Der.ParserReads | src/aa/webauthn.ts:62-87 | both numbers come back from any contents, short or long header and trailing bytes |
| Der.ReadsExactlyDer | src/aa/webauthn.ts:62-87 | parsing gives r and s exactly on the texts that are a header, an INTEGER of r, an INTEGER of s and trailing bytes |
| Der.ParserInvertsEncoding | src/aa/webauthn.ts:62-87 | parsing inverts DER encoding for every r and s of P-256, with or without the leading zero byte |
| Der.NormalizeP256S | src/aa/webauthn.ts:40-45 | succeeds exactly in 1..n-1, with s or n - s in the lower half |
| Der.NormalFormIsUnique | src/aa/webauthn.ts:40-45 | s and n - s have one normal form, and normalising it changes nothing |
| Precompiles.PaddingIsCanonical | scripts/lib/precompiles.cjs:32-36 | padded addresses are equal exactly for the same address number, whatever the prefix, case and leading zeros, and the string order that `sort` uses is the order of those numbers |
| Precompiles.FindRepeated | scripts/lib/precompiles.cjs:92-96 | none exactly when all addresses differ, otherwise an element whose address an earlier one has |
| Precompiles.ParseArray | scripts/lib/precompiles.cjs:60-98 | succeeds exactly on an array with the declared number of matching lines, each naming a constant, with different addresses; keys carry the x402 prefix where due; each error names a fault of the array |
| Precompiles.KeyReads | scripts/lib/precompiles.cjs:79-84 | the key is the constant's name, with X402_ in front exactly for a constant of the module x402 that does not begin so |
| Precompiles.ElementReads | scripts/lib/precompiles.cjs:74-89 | an element has the modules and the name of its line joined by `::`, the number of its address in 40 digits, and its note |
| Precompiles.BookByAddress | scripts/lib/precompiles.cjs:128-133 | succeeds exactly on different valid addresses, each with its name |
| Precompiles.PushAll | scripts/lib/precompiles.cjs:137-154 | one array's rows in order, refused exactly when it shares an address with the rows before |
| Precompiles.PushHosted | scripts/lib/precompiles.cjs:155-169 | exactly the book entries whose address no array has, each once |
| Precompiles.CheckKeys | scripts/lib/precompiles.cjs:171-175 | true exactly when no two rows share a key |
| Precompiles.SortLaw | scripts/lib/precompiles.cjs:176 | sorting rows of different addresses gives strictly increasing addresses and keeps the rows |
| Precompiles.ReadSources | scripts/lib/precompiles.cjs:115-133 | succeeds exactly when chain, book, both arrays and the pin are there and fit, and each error names what is not |
| Precompiles.Merge | scripts/lib/precompiles.cjs:135-176 | the sorted rows of parsed sources, refused exactly for an address in both arrays or a key of two rows |
| Precompiles.BuildTable | scripts/lib/precompiles.cjs:114-187 | success gives the sorted table of exactly the rows the sources call for; failure means the sources disagree, in the way the error says, or that no table without repeated keys exists |
| Precompiles.TableMeaning | scripts/lib/precompiles.cjs:109-187 | the table's addresses are exactly those of both arrays and the book; group, flags, name, key, constant and note of each row are those of the entry it comes from |

## Left out

- KeyManager.WrapKeyShares: the ECDH envelope, AES-GCM and key derivation are abstract functions; all that is used of them is that the addressed holder opens what the pinned owner sealed.
- Precompiles.ParseArray: the regular expressions that find an array, its element lines and the pin are taken as applied, a miss being one of the inputs. `toKey` and `toName` are arbitrary functions.
- Precompiles.BuildTable: which error is reported when several apply is not stated; each error is proved to name a real fault. The `source` block of the result is constant and left out.
- Precompiles.SortLaw: `Array.prototype.sort` is an insertion sort on values; on rows of different addresses every correct sort gives the same list.
- LeakSearch.Subsets: a generator that yields lazily is a method that returns the whole list.
- LeakSearch.BareLeak: exact over the de-duplicated candidates it is given; two shares with equal y are one candidate.
- Network.AssertGenesis: endpoints are read one after another instead of at once; the answers are parameters, timeouts and transport errors being one answer.
- WebSocketClient.Client.Connect: the promise that `connect` returns; `ok` says only whether the call was refused at once.
- BatchInference.Run: `inference` itself, the progress callback, and the rounding of sums of fractional batch sizes; an input is the length of its JSON text, or absent if it is falsy.
- `assertNoKeyShareMaterial`'s second scan of the value after `JSON.stringify`, with getters, proxies and `toJSON`: values here are finite trees and byte arrays.
- How `JSON.parse` rounds number literals (the parameter `numbers`), and its limits of memory and stack.
- Numbers that are not integers are one value, `NotAnInteger`; operations that would go on with a fraction (a nonce key, a reconnect bound) take integers. A guardian threshold may be any number, a batch size any real one.
- Values of x that are neither strings nor numbers in the guard against the share parser: the declared type excludes them.
- The tripwire's `walk`, its verbatim search and its candidate pattern.
- Ping timers, notifications, listeners that call back into the client, and streaming in the WebSocket client.
- `encodeDeployFor`, `getUserOpHash`, the execute encodings of the kernel and the passkey prompt: ABI coding and hashing of other libraries.
- `renderTs`, `renderReadmeTable` and `spliceReadme`: text templates.
- Lower case of letters beyond ASCII: `Text.Lower` folds A to Z.
- Timing and constant-time claims, and whether wiped memory is really gone.
- HTTP clients, hooks, identity, wallets, entitlement tiers, configuration validators and error texts.
