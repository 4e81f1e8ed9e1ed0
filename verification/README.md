# WebGate: verified models of the signature code, the reverse tunnel, the service registry and the proxy boundary

This project models, in Dafny, the parts of WebGate whose correctness is hard to see by reading, and
proves what they promise for all inputs and all runs.

* **Signatures** (`crates/webgate-core/src/ed25519.rs`, all but the hexadecimal printing). Field elements are five 51-bit
  limbs with lazy carries; machine words are bounded types, so every proof also shows that no 64-bit
  or 128-bit step overflows. On top of them: byte encodings, the addition chains, the point formulas
  and the group they compute in, the 256-step ladder, reduction modulo L, multiply-add, SHA-512 as a
  buffered stream, signing and verification. `FieldElement`, `FieldEncoding`, `FieldPower`,
  `FieldZero`, `FieldLarge`, `EdwardsAlgebra`, `EdwardsGroup`, `EdwardsPoint`, `ScalarMul`, `Scalars`,
  `Sha512Block`, `Sha512`, `Sha512Constants`, `Sha512Example`, `PointEncoding`, `SquareRoots`,
  `PointDecoding`, `PointResidues`, `Ed25519`; number theory and positional notation in `Arith`, `Fermat`,
  `LittleEndian`, `Words`.
* **Reverse tunnel.** The frame codec (`Frames`), and relay and origin agent as a step system over
  every interleaving of their goroutines (`Tunnel`, `TunnelSafety`), with the exact conditions under which
  a stream delivers all that was sent (`TunnelDelivery`), what a close does at the other end
  (`TunnelClosing`), queues, readers, writers and heartbeats (`TunnelEnds`), joined to the codec in `TunnelWire`.
* **Service registry.** A specification machine with a failing store (`Registry`), what each call does to
  each field and when it succeeds (`RegistryFields`), and the registry over its two maps of shared heap
  objects, proved to follow the machine call by call (`ServiceRegistry`).
* **Failover.** The failover controller and the dual relay as classes, each proved against a step
  function, and what holds over their runs (`Failover`, `DualFailover`).
* **Proxy boundary.** The incremental HTTP head reader (`HttpHead`), SOCKS5 requests and the
  destination policy (`Socks5`), the CONNECT bridge that joins them from the client's first byte to the
  upstream (`HttpConnect`), the navigation URL validator and serialiser (`Url`, `Decimals`). What each of
  these readers accepts is told once more as a grammar, without its search loops, and proved to be exactly
  that (`SocksGrammar`, `HttpGate`, `UrlGrammar`).

Code that changes state step by step is a class or a method proved against a specification function;
what the source promises is then proved of that function. `dafny verify dfyconfig.toml` checks it all.

Taken as hypotheses, and named in the contracts that need them: non-zero residues modulo
p = 2^255 - 19 are invertible and d is not a square (`PrimeAndNonSquare`), the Edwards addition law is
associative (`Associative`), and L times the base point is the neutral element (`CurveGroup`). From the first,
Fermat's little theorem is proved (`FermatTheorem`), and with it inversion and the square root that decoding
takes. Completeness of the addition law, closure, neutral element and the curve membership of the base point
are proved.

Where code and promise part, the code is kept, and the exact condition is a theorem:

* `to_bytes` corrects by 19 q and then calls `carry`, which folds the top carry back in as 19 (line 320).
  It is canonical if and only if the settled value is below p; p itself is written as 19
  (`ToBytesCanonical`, `UnreducedPrime`). `is_zero` recognises a residue of zero if and only if the value
  does not settle to p (`IsZeroExact`), and a residue of zero settles to p from every limb vector but the
  zero one. In `decompress` the recovered x^2 is never that one, so the guard for x = 0 is taken for no input
  at all (`GuardNeverTaken`), and every encoding with y^2 = 1 decodes whatever its sign bit, which
  section 5.1.3 of RFC 8032 rejects when it is set (`ZeroXDecodes`, `SignedOneDecodes`).
* Folding the top carry in as 19 also keeps values of 19 or more from settling below 19, and the products
  that are compared and encoded are such values. Of such a value only the residue r shows, written as r + 19
  when it is below 19 (`ToBytesWritten`). That makes the root test of `decompress` exact, and bytes decode if and only if their y
  is that of a curve point (`DecodesExactly`).
* Decoding what RFC 8032 makes of a curve point does not always give it back. The sign of x is read off the
  root's encoding, and wrong when the root is a residue from 1 to 18; then the negative comes out
  (`DecodeEncoded`), as it does for a point with x = 16 (`SixteenComesBackNegated`). A point comes back if
  and only if x is zero, or at least 19 away from zero on both sides, or the root found, which the power
  x^((p - 1) / 4) tells, is the one of x and -x that is not small (`ComesBackExactly`).
* `compress` writes the encoding of RFC 8032 if and only if both coordinates are 19 or more
  (`CompressExactly`), and what it writes decodes to the point if and only if y is 19 or more and x survives
  in the same sense (`DecodeWritten`, `SurvivesExactly`). Verification accepts exactly the signatures whose
  decoded points satisfy the equation up to residues below 38 (`AcceptsExactly`, `ShownOnce`), and an honest
  one whenever the public key and the commitment survive (`SignatureVerifies`).
* A stream of the tunnel may lose bytes when its other end hangs up without any fault: the writer's select
  may take the close first (`QueuedDataLost`). While the session stands and no write has failed, all that was
  sent is written if and only if nothing is queued, pending or on the wire and nothing was dropped
  (`DeliveredExactly`), also ever after a writer has stopped (`DeliveredAtStop`); and at the moment an end
  hangs up, in any reachable state, every fault-free continuation delivers everything if and only if that
  holds then (`HangUpExact`). A payload the writer already holds is still written, so it does not count.
* The SQLite store trims the id it deletes but not the id it saves. `Unregister` keeps store and memory
  together if and only if the id carries no surrounding white space (`UnregisterSynced`); registering and
  removing any other service leaves its row behind (`UntrimmedStays`, `UntrimmedExample`).
* `UpdateExecutable` does not validate. With a port above 65535 it persists a service that the next
  start refuses (`ExecutablePort`, `RestartRestores`).
* Restarting the failover controller may end its cooldown (`RestartSkipsCooldown`, for every limit). A
  restart keeps the spacing of failovers if and only if it does not find the primary ready and inactive
  within a cooldown of the last failover (`RestartKeepsSpacing`); runs whose restarts all keep to that are
  spaced throughout (`GentleSpan`). The dual relay has the same condition on its starts (`StartStaysSpaced`,
  `FailoversSpan`).
* An offline dual relay is not always fail-closed. Without start or stop it leaves Offline if and only if its
  role is still the fallback and a good probe comes after the cooldown (`OfflineLeft`,
  `LostListenerRevived`, for every cooldown); otherwise it stays (`OfflineAbsorbs`). Slow answers are
  counted but never cause failover, unlike in the controller (`SlowPrimaryStays`, `SlowPrimaryLeft`).
* The policy's constructor accepts rules that allow no target. A plain rule allows a domain if and only if it
  is its own normal form (`PlainRuleAllows`), a wildcard rule if and only if "a." before its suffix is
  (`WildcardRuleCheck`); any rule also allows the address that prints as the rule, if there is one. A rule that
  ends in a dot never allows a domain (`DottedRuleAllowsNothing`).
* The relay's stream ids are new if and only if fewer than 2^32 have been given out (`DistinctIds`); then
  they replace streams of the session (`WrapReuses`), open ones too, whose bytes the new stream's client gets
  (`OpenStreamReplaced`).
* A printed URL is read back if and only if its host has no colon and opens no bracket; IPv6 literals
  are printed without their brackets (`RoundTrip`, `Ipv6LiteralLost`).

## Model

| member | source | states |
|---|---|---|
| FieldElements.MulExact | crates/webgate-core/src/ed25519.rs:416-457 | for all limbs below 2^54 no 64-bit or 128-bit step overflows, the product's value is that of the factors modulo p, limb 0 is below 2^51 + 19 and the others below 2^51 |
| FieldElements.AddExact | crates/webgate-core/src/ed25519.rs:389-397 | addition is exact on the integers, without a carry |
| FieldElements.SubExact | crates/webgate-core/src/ed25519.rs:400-413 | for subtrahend limbs under the 4p offset nothing underflows, and the difference is exact modulo p with the carried limb bounds |
| FieldElements.CarryFolds | crates/webgate-core/src/ed25519.rs:365-386 | one carry pass keeps the low 255 bits and folds the rest back in times 19, exactly |
| FieldEncoding.CarrySettles | crates/webgate-core/src/ed25519.rs:308-363 | for limbs below 2^63 two carry passes bring every limb below 2^51, keep the residue, and a third changes nothing |
| FieldEncoding.PackValue | crates/webgate-core/src/ed25519.rs:324-362 | the 32 bytes assembled across limb borders spell the element's value in little-endian |
| FieldEncoding.ToBytesValueOf | crates/webgate-core/src/ed25519.rs:308-363 | the encoded integer, in both cases: the settled value when it is below p, and that minus p plus 19 otherwise |
| FieldEncoding.ToBytesCanonical | crates/webgate-core/src/ed25519.rs:308-363 | the encoding is of the residue modulo p if and only if the settled value is below p |
| FieldEncoding.UnreducedPrime | crates/webgate-core/src/ed25519.rs:318-321 | a concrete element, p itself, whose encoding is 19 |
| FieldLarge.ToBytesWritten | crates/webgate-core/src/ed25519.rs:308-363 | for limbs below 2^63 and a value of 19 or more the encoding is that of the residue r, or of r + 19 when r is below 19 |
| FieldZero.IsZeroExact | crates/webgate-core/src/ed25519.rs:527-533 | the zero test recognises a residue of zero if and only if the value does not settle to p |
| FieldZero.ZeroSettlesAsP | crates/webgate-core/src/ed25519.rs:308-363 | a residue of zero settles to zero only from the zero limbs, and to p from all others |
| FieldZero.GuardNeverTaken | crates/webgate-core/src/ed25519.rs:628-673 | whatever bytes come in, the recovered x^2 is never seen as zero |
| FieldZero.ZeroXDecodes | crates/webgate-core/src/ed25519.rs:628-673 | every encoding whose y squares to one decodes, whatever its sign bit |
| FieldZero.SignedOneDecodes | crates/webgate-core/src/ed25519.rs:628-673 | the concrete encoding of y = 1 with the sign bit set decodes |
| FieldEncoding.FromBytesValue | crates/webgate-core/src/ed25519.rs:289-306 | decoding takes the little-endian value with bit 255 cleared, in limbs below 2^51 |
| FieldEncoding.EncodeDecode | crates/webgate-core/src/ed25519.rs:289-363 | decoding and encoding again gives the bytes with bit 255 cleared if and only if that value is below p |
| FieldPower.SquareLoop | crates/webgate-core/src/ed25519.rs:465-512 | each of the chain's squaring loops computes its repeated squaring, within limb bounds |
| FieldPower.ComputePow22523 | crates/webgate-core/src/ed25519.rs:465-512 | the chain with its loops computes the specified chain for every bounded element |
| FieldPower.Pow22523Power | crates/webgate-core/src/ed25519.rs:465-512 | the chain is the power 2^252 - 3 modulo p |
| FieldPower.InvertPower | crates/webgate-core/src/ed25519.rs:514-519 | inversion is the power p - 2 modulo p |
| FermatTheorem.Fermat | crates/webgate-core/src/ed25519.rs:514-519 | in every field of m elements a^(m - 1) = 1 for a that is not zero, from inverses alone |
| PointEncoding.InvertExactly | crates/webgate-core/src/ed25519.rs:514-519 | inversion gives the inverse of an element if and only if it is not zero modulo p |
| EdwardsAlgebra.SumOnCurve | crates/webgate-core/src/ed25519.rs:578-594 | the addition formulas of section 5.1.4 of RFC 8032 preserve XY = ZT and -X^2 + Y^2 = Z^2 + dT^2, in any ring modulo m |
| EdwardsAlgebra.TwiceOnCurve | crates/webgate-core/src/ed25519.rs:597-613 | so do the doubling formulas |
| EdwardsAlgebra.TwiceIsSum | crates/webgate-core/src/ed25519.rs:597-613 | doubling is adding a point to itself, up to one common factor of the coordinates |
| EdwardsPoints.AddRefines | crates/webgate-core/src/ed25519.rs:578-594 | on bounded points every limb operation stays in its bounds, and the result is the formulas' result modulo p |
| EdwardsPoints.DoubleRefines | crates/webgate-core/src/ed25519.rs:597-613 | the same for doubling |
| EdwardsPoints.Constants | crates/webgate-core/src/ed25519.rs:258-287 | the stored d is -121665/121666, the stored 2d is its double, the stored root squares to -1 |
| EdwardsGroup.CurveForms | crates/webgate-core/src/ed25519.rs:632-636 | the equation that decompress solves for x^2 has exactly the solutions of the curve equation, modulo any m |
| EdwardsGroup.NoExceptionalCase | crates/webgate-core/src/ed25519.rs:578-594 | for curve points neither denominator of the addition law vanishes: it is complete |
| EdwardsGroup.SumProper | crates/webgate-core/src/ed25519.rs:578-594 | the projective sum is on the curve with an invertible Z |
| EdwardsGroup.SumIsAffine | crates/webgate-core/src/ed25519.rs:578-594 | the projective sum stands for the affine sum of the points |
| EdwardsGroup.MultipleAdd | crates/webgate-core/src/ed25519.rs:675-687 | multiples of a point add like numbers, in any associative curve |
| EdwardsGroup.ResponseMultiple | crates/webgate-core/src/ed25519.rs:844-849 | [(r + ka) mod l]B = [r]B + [k]([a]B) when [l]B is neutral |
| ScalarMultiplication.AddValid | crates/webgate-core/src/ed25519.rs:578-594 | addition of valid points is valid and is their sum on the curve |
| ScalarMultiplication.DoubleValid | crates/webgate-core/src/ed25519.rs:597-613 | doubling of a valid point is valid and is the point added to itself |
| ScalarMultiplication.ComputeScalarMul | crates/webgate-core/src/ed25519.rs:676-687 | the 256-step loop computes the ladder |
| ScalarMultiplication.LadderOnCurve | crates/webgate-core/src/ed25519.rs:676-687 | every intermediate of the loop satisfies the curve equations and the limb bounds |
| ScalarMultiplication.LadderMultiple | crates/webgate-core/src/ed25519.rs:676-687 | after the bits from i up the loop holds [n >> i]P |
| ScalarMultiplication.ScalarMulMultiple | crates/webgate-core/src/ed25519.rs:676-687 | the result is [n]P for n the little-endian value of all 256 bits |
| Scalars.ScalarGte | crates/webgate-core/src/ed25519.rs:741-751 | word comparison from the top is comparison of the numbers |
| Scalars.ShiftIn | crates/webgate-core/src/ed25519.rs:714-719 | the remainder and the carry out of it are twice the old remainder plus the bit |
| Scalars.SubtractOrder | crates/webgate-core/src/ed25519.rs:721-729 | the borrow chain subtracts L exactly, the borrow out included |
| Scalars.ReduceBit | crates/webgate-core/src/ed25519.rs:709-730 | one bit more keeps the remainder the number modulo L and below L; nothing is shifted out and no borrow is left |
| Scalars.ScalarReduce64 | crates/webgate-core/src/ed25519.rs:702-738 | the 32 bytes of the 512-bit input modulo L, exactly |
| Scalars.AddRow | crates/webgate-core/src/ed25519.rs:769-774 | a row of limb products stays within 128-bit columns and adds a_i b + c_i at its weight |
| Scalars.NoFinalCarry | crates/webgate-core/src/ed25519.rs:776-782 | for 256-bit factors and addend the carry out of the last column is zero |
| Scalars.ScalarMulAdd | crates/webgate-core/src/ed25519.rs:754-790 | ab + c modulo L for all 256-bit a, b and c |
| Sha512Block.FillSchedule | crates/webgate-core/src/ed25519.rs:156-168 | the filled array is the message schedule of section 6.4.2 of FIPS 180-4 |
| Sha512Block.RunRounds | crates/webgate-core/src/ed25519.rs:170-199 | the eighty assignments are the eighty rounds of that section |
| Sha512Block.ProcessBlock | crates/webgate-core/src/ed25519.rs:155-209 | the state becomes the compression of the old state and the block |
| Sha512Block.CompressRecurs | crates/webgate-core/src/ed25519.rs:170-209 | from any hash value, a block adds to each of its eight words a word of two recurrences, one for a to d and one for e to h, that start from that very value: the rounds without the shifting of variables |
| Sha512Constants.RoundConstants | crates/webgate-core/src/ed25519.rs:12-93 | the t-th of the eighty constants is n modulo 2^64 for the n with n^3 <= q 2^192 < (n + 1)^3, q the t-th prime; primes are found by trial division, not listed |
| Sha512Constants.InitialWords | crates/webgate-core/src/ed25519.rs:103-114 | the t-th initial word is n modulo 2^64 for the n with n^2 <= q 2^128 < (n + 1)^2 |
| Sha512Constants.ChSelects | crates/webgate-core/src/ed25519.rs:181-181 | whatever bits a mask picks, Ch has those of y where x has ones and those of z where x has zeros |
| Sha512Constants.MajMajority | crates/webgate-core/src/ed25519.rs:188-188 | wherever two of the three words agree, Maj agrees with them |
| Sha512Example.DigestOfAbc | crates/webgate-core/src/ed25519.rs:155-246 | the digest of "abc" is the one printed in FIPS 180-4, which fixes every rotation, shift and addition of schedule and rounds |
| Sha512Hasher.PadReads | crates/webgate-core/src/ed25519.rs:212-231 | the padding is the shortest that makes whole blocks of the message, a one bit, zeros and the bit length in network order |
| Sha512Hasher.WordBytesAt | crates/webgate-core/src/ed25519.rs:233-237 | each word of the hash value is written in network order, in its place |
| Sha512Hasher.AbsorbAppend | crates/webgate-core/src/ed25519.rs:141-147 | absorbing whole blocks one after another is absorbing their concatenation |
| Sha512Hasher.Sha512.Update | crates/webgate-core/src/ed25519.rs:121-153 | whatever the split, the hasher has absorbed the whole blocks of everything fed so far and buffers exactly the rest, under 128 bytes |
| Sha512Hasher.Sha512.Finalize | crates/webgate-core/src/ed25519.rs:212-238 | the digest of the padded message in both buffer cases, without reading a stale buffer byte |
| Sha512Hasher.HashPieces | crates/webgate-core/src/ed25519.rs:121-246 | for every message and every division into updates the streamed hash is the one-shot digest |
| PointEncoding.BaseValid | crates/webgate-core/src/ed25519.rs:554-575 | the stored base point satisfies the curve equations |
| PointEncoding.BaseCoordinates | crates/webgate-core/src/ed25519.rs:554-575 | its coordinates are those of section 5.1 of RFC 8032: y is 4/5 modulo p, x is even |
| PointEncoding.EncodingNumber | crates/webgate-core/src/ed25519.rs:616-625 | the encoding of RFC 8032 that compression is compared with is y, with the low bit of x as bit 255 |
| PointEncoding.CompressEncodes | crates/webgate-core/src/ed25519.rs:616-625 | compression writes the encoding of the affine point if and only if both settled coordinates are below p |
| PointDecoding.DecodesExactly | crates/webgate-core/src/ed25519.rs:628-673 | any 32 bytes decode if and only if the y they hold, reduced modulo p, is that of a point of the curve |
| PointDecoding.DecodedOnCurve | crates/webgate-core/src/ed25519.rs:628-673 | whatever decodes is a valid point of the curve, with the y the bytes hold and as x the root, or its negative where its written parity and the sign bit ask for that |
| SquareRoots.OneOfTwo | crates/webgate-core/src/ed25519.rs:650-661 | for a square, the candidate power or that times the root of -1 is a root, in any field |
| SquareRoots.FourthPowers | crates/webgate-core/src/ed25519.rs:650-661 | the candidate to the eighth power is the fourth power of the quotient, square or not, which is what makes comparing through encodings exact |
| PointDecoding.RootTest | crates/webgate-core/src/ed25519.rs:655-661 | for such values the comparison of two encodings is that of the residues |
| PointDecoding.RootFound | crates/webgate-core/src/ed25519.rs:650-661 | a recovered x^2 that is a square never fails the root test |
| PointDecoding.RootByPower | crates/webgate-core/src/ed25519.rs:650-661 | for a curve point the root found is x itself, and not -x, if and only if x is zero, or x^((p - 1) / 4) is 1 or the inverse of the stored root of -1 |
| PointDecoding.DecodeEncoded | crates/webgate-core/src/ed25519.rs:615-673 | the encoding of every curve point decodes: to the point if and only if x is zero or the root found is 19 or more, and to its negative otherwise |
| PointDecoding.LargeComesBack | crates/webgate-core/src/ed25519.rs:615-673 | so every curve point with 19 <= x <= p - 19 comes back |
| PointDecoding.ComesBackExactly | crates/webgate-core/src/ed25519.rs:615-673 | the exact condition on the point alone, small x included |
| PointDecoding.SixteenComesBackNegated | crates/webgate-core/src/ed25519.rs:663-665 | a concrete point of the curve that decodes from its own encoding as its negative |
| PointResidues.ScalarMulLarge | crates/webgate-core/src/ed25519.rs:675-687 | whatever 32 bytes a point is multiplied by, neither X, Y nor Z of the result is a value below 19 |
| PointResidues.CompressWritten | crates/webgate-core/src/ed25519.rs:615-625 | compression of such a point depends on its affine point alone, and is that point with residues below 19 written 19 higher |
| PointResidues.CompressExactly | crates/webgate-core/src/ed25519.rs:615-625 | it is the encoding of section 5.1.2 of RFC 8032 if and only if both coordinates are 19 or more |
| PointResidues.OneEncoding | crates/webgate-core/src/ed25519.rs:615-625 | two representations of one point compress alike |
| PointResidues.SameEncoding | crates/webgate-core/src/ed25519.rs:893-896 | two points compress alike if and only if their coordinates are written alike |
| PointResidues.ShownOnce | crates/webgate-core/src/ed25519.rs:893-896 | a curve point with y of 38 or more and x at least 19 away from zero is the only one that is written as it is |
| PointResidues.DecodeWritten | crates/webgate-core/src/ed25519.rs:615-673 | what compression writes of a curve point decodes to it if and only if y is 19 or more and x is zero, at least 19 away from zero, or the root found |
| PointResidues.SurvivesExactly | crates/webgate-core/src/ed25519.rs:615-673 | the same condition on the point alone |
| Ed25519.ClampValue | crates/webgate-core/src/ed25519.rs:807-811 | for every 64-byte hash the clamped scalar is 2^254 and 8 times bits 3 to 253 of the first half: a multiple of 8 from 2^254 below 2^255 |
| Ed25519.SecretValue | crates/webgate-core/src/ed25519.rs:806-826 | so for the secret scalar of every seed |
| Ed25519.Moduli | crates/webgate-core/src/ed25519.rs:694-699 | p is 2^255 - 19, and L is 2^252 + 27742317777372353535851937790883648493 |
| Ed25519.Sign | crates/webgate-core/src/ed25519.rs:820-850 | hashing, reduction, ladder and multiply-add together yield the signature of section 5.1.6 of RFC 8032 over this code's encodings |
| Ed25519.SignatureNumbers | crates/webgate-core/src/ed25519.rs:803-850 | in numbers: the public key of a seed encodes [a]B, and a signature is the encoding of [r]B and r + k a modulo L, for a the clamped hash, r the hash of prefix and message, k the hash of commitment, key and message, the last two modulo L |
| Ed25519.Verify | crates/webgate-core/src/ed25519.rs:865-897 | accepts if and only if s is below L, both points decode, and [s]B and R + [k]A have one encoding |
| Ed25519.ResponseEquation | crates/webgate-core/src/ed25519.rs:844-849 | s is below L and [s]B = R + [k]A, for every challenge, key and nonce scalar |
| Ed25519.AcceptsExactly | crates/webgate-core/src/ed25519.rs:865-897 | for any bytes: accepted if and only if s is below L, both points decode, and [s]B and R + [k]A of the decoded points are written alike; nothing is assumed of limbs |
| Ed25519.AcceptsNumbers | crates/webgate-core/src/ed25519.rs:865-897 | in numbers, for any bytes: accepted if and only if s is below L and points R and A decode for which [s]B and R + [k]A are written alike, k the hash of commitment, key and message modulo L |
| Ed25519.DecodedMultiple | crates/webgate-core/src/ed25519.rs:616-673 | the public key and the commitment decode to the multiple of the base point they encode if and only if that point survives |
| Ed25519.SignatureExactly | crates/webgate-core/src/ed25519.rs:803-897 | a signature that was made is accepted if and only if what its public key and commitment decode to satisfies the equation |
| Ed25519.SignatureVerifies | crates/webgate-core/src/ed25519.rs:803-897 | what a seed signs, the public key derived from that seed verifies, if [a]B and [r]B survive: y of 19 or more, and x zero, at least 19 away from zero, or the root found |
| Frames.DecodeEncode | server/pkg/relay/protocol.go:53-113 | a frame is read back from its encoding and any bytes after it are untouched |
| Frames.EncodeDecode | server/pkg/relay/protocol.go:76-113 | an accepted frame re-encodes to exactly the bytes consumed |
| Frames.PrefixTruncated | server/pkg/relay/protocol.go:76-113 | no strict prefix of an encoding decodes |
| Frames.EncodedBytes | server/pkg/relay/protocol.go:53-74 | the bytes of a frame: the letters WGRL, version 1, the type, then flags, stream id and payload length in network order, and the payload |
| Frames.RefusedFor | server/pkg/relay/protocol.go:76-106 | which bytes are refused with which error, exactly |
| Frames.DecodeManyEncodeAll | server/pkg/relay/protocol.go:53-113 | repeated reading of concatenated encodings gives back the list of frames and the suffix |
| Frames.EncodeAllDecodeMany | server/pkg/relay/protocol.go:76-113 | whatever list is read, its encodings are what was there |
| Frames.WriteFrame | server/pkg/relay/protocol.go:53-74 | an oversized payload writes nothing; otherwise the connection gets the encoding, or the prefix it had room for and an error |
| Frames.ReadFrame | server/pkg/relay/protocol.go:76-113 | reading in two steps has the codec's outcome, with each error where the code reports it, and leaves exactly what follows |
| TunnelSafety.Invariant | server/pkg/relay/relay.go:263-417 | over every run in which the id counter has not wrapped: each stream's frames stay its own and in order through wire, frame loop and queue, and nothing of an intact stream is dropped |
| TunnelSafety.Conservation | server/pkg/relay/relay.go:330-417 | until the stream or its session closes or the receiving socket fails, bytes read at one end are those delivered, held, queued, pending, in flight and not yet sent, in order, in both directions |
| TunnelSafety.Isolation | server/pkg/relay/relay.go:269-296 | in every run that has given out at most 2^32 ids, whatever closes or breaks, and for every id of this session: a writer takes a subsequence of the frames sent for that very stream, writes a prefix of their bytes, and queues stay within capacity |
| TunnelSafety.DistinctIds | server/pkg/relay/relay.go:340-350 | in every run the next id is new among all sessions if and only if fewer than 2^32 have been given out |
| TunnelSafety.WrapReuses | server/pkg/relay/relay.go:340-350 | in every run past that point a stream accepted under an id of this session replaces the stream that has it |
| TunnelSafety.OpenStreamReplaced | server/pkg/relay/relay.go:340-350 | a run without a failure in which a stream open at both ends is replaced, and the frames of the old one are queued for the new one |
| TunnelSafety.QueuedDataLost | server/pkg/origin/agent.go:322-384 | a run without a failure in which a queued payload is never delivered because its close is noticed first |
| TunnelDelivery.DeliveredExactly | server/pkg/origin/agent.go:312-384 | over every run before ids come again, with the session up and no failed write: a writer not in the middle of a write has written exactly what the other end sent if and only if nothing of the stream is queued, pending or on the wire and none of it was dropped |
| TunnelDelivery.DeliveredAtStop | server/pkg/origin/agent.go:361-384 | however such a run goes on after a writer has stopped, what it has written is all that was sent if and only if that held when it stopped and nothing was sent since |
| TunnelDelivery.HangUpExact | server/pkg/origin/agent.go:322-410 | in every reachable state with the session up and no failed write, when one end hangs up: all fault-free continuations in which the other writer stops deliver everything if and only if nothing is queued, pending or on the wire and nothing was dropped |
| TunnelDelivery.RunAccounts | server/pkg/origin/agent.go:300-334 | while the session stands every payload sent is taken, queued, pending, on the wire or dropped by the frame loop, over every run |
| TunnelDelivery.RunAnswered | server/pkg/relay/relay.go:288-327 | in every run with the session up, a stream is closed at an end that has not hung up, or has a close on its way there, only if the other end has closed it |
| TunnelClosing.RunTold | server/pkg/relay/relay.go:285-294 | over every run with the session up: once one end has sent a close or reset of a stream, the other has closed and unregistered it, or the message is still on the wire to it |
| TunnelClosing.SessionClosed | server/pkg/relay/relay.go:50-61 | once an end has closed all its streams at the end of the session, each of them is closed and unregistered there for good |
| TunnelEnds.RunSteadfast | server/pkg/origin/agent.go:337-406 | in every run, whatever ids come again: a stream without a socket has moved nothing, and while the session stands every byte read from a socket has been sent or is about to be |
| TunnelEnds.QueueBounds | server/pkg/relay/relay.go:340-346 | in every run no queue holds more than 32 payloads at the relay or 64 at the origin |
| TunnelEnds.PushesExactly | server/pkg/origin/agent.go:313-321 | in every run a payload held by the frame loop is handed over if and only if its queue has room |
| TunnelEnds.RunLast | server/pkg/origin/agent.go:352-410 | in every run with the session up, an end that left of itself, and not because it was told to, is not still writing |
| TunnelEnds.HeartbeatsAnswered | server/pkg/relay/relay.go:270-272 | over every run with the session up, heartbeats sent are heard or on the wire, and for each one heard an answer is heard or on the wire back |
| TunnelDelivery.Freed | server/pkg/origin/agent.go:312-321 | from every reachable state in which a stream is about to lose a payload to a close, a frame loop blocked on a full queue can be freed without a fault |
| TunnelWire.WireBytes | server/pkg/relay/protocol.go:10-74 | the bytes of each message of the tunnel, type numbers included |
| TunnelWire.WireOfRun | server/pkg/relay/relay.go:44-48 | in every run the frames written to either wire, as one byte stream, are read back as the very messages the step system moves |
| RegistrySpec.RunInvariant | server/pkg/registry/service_registry.go:76-297 | after any calls and store failures services are keyed by their ids with distinct slugs, and the store holds memory's durable snapshots but for UpdatedAt, if ids are trimmed |
| RegistrySpec.UnregisterSynced | server/pkg/persistence/sqlite_store.go:162-181 | a successful removal keeps store and memory together if and only if the id is its own trimmed form |
| RegistrySpec.UnregisterTakesAnother | server/pkg/persistence/sqlite_store.go:162-181 | otherwise the row of the service with the trimmed id goes instead |
| RegistrySpec.UntrimmedStays | server/pkg/persistence/sqlite_store.go:162-181 | for every service with an untrimmed id, registering and removing it in an empty registry succeeds and leaves its row in the store |
| RegistrySpec.UntrimmedExample | server/pkg/persistence/sqlite_store.go:162-181 | such a service exists |
| RegistrySpec.VersionCounts | server/pkg/registry/service_registry.go:100-297 | Version is one plus the successful configuration updates since registration, in 64 bits; runtime updates do not count |
| RegistrySpec.RestartRestores | server/pkg/registry/service_registry.go:45-71 | restoring the store's rows in any order gives back exactly them if and only if every saved upstream is canonical |
| RegistrySpec.ExecutablePort | server/pkg/registry/service_registry.go:190-214 | updating an executable keeps every upstream canonical if and only if the port has 16 bits |
| RegistrySpec.RestartAfterRun | server/pkg/registry/service_registry.go:45-297 | after any run with trimmed ids and 16-bit executable ports a restart brings memory's durable snapshots back |
| RegistrySpec.CandidateFits | server/pkg/registry/service_registry.go:76-297 | whatever is about to be committed validates by name, collides with no other slug, keeps its id and moves its version by one |
| RegistryFields.StepFields | server/pkg/registry/service_registry.go:76-297 | a call that succeeds sets each of seventeen fields of its service as it asks and leaves the others, stamps the time, and the store gets the durable snapshot of configuration updates; for a route the upstream becomes the canonical form of the given one |
| RegistryFields.OthersKept | server/pkg/registry/service_registry.go:76-312 | no call changes a service but its own, neither in memory nor in the store, and one that fails changes none |
| RegistryFields.SucceedsExactly | server/pkg/registry/service_registry.go:45-297 | exactly which calls succeed, in terms of the registry and the arguments |
| RegistryFields.FailsFor | server/pkg/registry/service_registry.go:76-297 | a call that fails names what is wrong with it: the first fault in the order of the checks |
| RegistryFields.FieldLasts | server/pkg/registry/service_registry.go:76-297 | over every run a field has the value that the last successful call to set it asked for, in memory, and in the store while that follows |
| ServiceRegistries.SlugIndex | server/pkg/registry/service_registry.go:121-130 | the slug map has a slug exactly when a registered service does, and leads to that very object |
| ServiceRegistries.AgreeReplace | server/pkg/registry/service_registry.go:306-312 | putting a new object in place of an old one keeps both maps on the same objects, also when the slug changes |
| ServiceRegistries.ServiceRegistry.Register | server/pkg/registry/service_registry.go:76-106 | the heap follows the specification step, errors in the source's order; on failure both maps are untouched; the stored object is fresh |
| ServiceRegistries.ServiceRegistry.UpdateStatus | server/pkg/registry/service_registry.go:145-162 | follows the specification step by replacing the object with a fresh one, after the store committed |
| ServiceRegistries.ServiceRegistry.UpdateRoute | server/pkg/registry/service_registry.go:165-187 | the same, with the upstream canonicalised before the lookup |
| ServiceRegistries.ServiceRegistry.UpdateExecutable | server/pkg/registry/service_registry.go:190-214 | the same, without validation |
| ServiceRegistries.ServiceRegistry.UpdateFull | server/pkg/registry/service_registry.go:261-297 | the same, with collision check and validation, also when the slug changes |
| ServiceRegistries.ServiceRegistry.UpdateProcessRuntime | server/pkg/registry/service_registry.go:219-238 | writes the registered object in place, visible through both maps, and nothing else |
| ServiceRegistries.ServiceRegistry.Unregister | server/pkg/registry/service_registry.go:241-258 | removes one object from both maps after the store deleted it |
| ServiceRegistries.ServiceRegistry.Restore | server/pkg/registry/service_registry.go:45-71 | replaces both maps with fresh objects for all rows, or changes nothing at the first bad row |
| ServiceRegistries.ServiceRegistry.GetById | server/pkg/registry/service_registry.go:109-118 | a fresh copy with the stored value, never a stored object |
| ServiceRegistries.ServiceRegistry.ResolveBySlug | server/pkg/registry/service_registry.go:121-130 | finds a service exactly when one has the slug, and returns a fresh copy |
| ServiceRegistries.ServiceRegistry.List | server/pkg/registry/service_registry.go:133-142 | one fresh copy of every service |
| TransportFailover.TransportFailoverController.Start | crates/webgate-transport/src/failover.rs:71-89 | follows the step function, on a provider that is ready at the call only |
| TransportFailover.TransportFailoverController.RecordObservation | crates/webgate-transport/src/failover.rs:136-187 | the field updates in order amount to one step |
| TransportFailover.TransportFailoverController.ProbeStandbyPrimary | crates/webgate-transport/src/failover.rs:190-209 | reports true exactly when it made the primary active |
| TransportFailover.TransportFailoverController.ActiveProxyEndpoint | crates/webgate-transport/src/failover.rs:98-109 | an endpoint is handed out exactly for an active provider that is ready |
| TransportFailover.TransportFailoverController.AggregateState | crates/webgate-transport/src/failover.rs:112-134 | Offline exactly without a ready active provider; Ready only with a zero counter |
| TransportFailover.CounterIsStreak | crates/webgate-transport/src/failover.rs:145-187 | in every run the active provider's counter is its run of unhealthy observations since it became active, and below max(1, N) |
| TransportFailover.ActiveResponds | crates/webgate-transport/src/failover.rs:71-222 | in every run the active provider is marked responsive |
| TransportFailover.SwitchAtLimit | crates/webgate-transport/src/failover.rs:145-222 | a provider is left by an observation if and only if that run reaches the limit, the primary for a ready fallback and otherwise for none |
| TransportFailover.NoneAbsorbs | crates/webgate-transport/src/failover.rs:145-222 | once no provider is active none is, until start |
| TransportFailover.ResponsiveExactly | crates/webgate-transport/src/failover.rs:136-222 | in every run the primary is marked responsive if and only if it is active, the fallback while it is active, and neither when none is |
| TransportFailover.HealthIsLast | crates/webgate-transport/src/failover.rs:136-209 | in every run latency and probe time of a provider are those of its last observation since start; a switch back counts as one |
| TransportFailover.ActivatedReady | crates/webgate-transport/src/failover.rs:71-222 | a provider is made active only when it is ready, the fallback by start or observation, the primary by start or probe; start prefers the primary |
| TransportFailover.FailoverTime | crates/webgate-transport/src/failover.rs:211-222 | the kept failover time is that of the last failover of the run |
| TransportFailover.BackOnlyAfterCooldown | crates/webgate-transport/src/failover.rs:71-209 | in every run the fallback is left for the primary if and only if a start finds the primary ready, or a good probe does a whole cooldown after the last failover |
| TransportFailover.SwitchesSpan | crates/webgate-transport/src/failover.rs:190-222 | with a clock that never goes back and no restart, k switches to the fallback span at least k - 1 cooldowns |
| TransportFailover.GentleSpan | crates/webgate-transport/src/failover.rs:71-222 | the same with restarts, if none finds the primary ready and inactive within a cooldown of the last failover, and the failovers are spaced one by one |
| TransportFailover.RestartKeepsSpacing | crates/webgate-transport/src/failover.rs:71-89 | after any such run, a restart, whatever it finds ready, keeps every continuation's failovers spaced if and only if it is not one of those |
| TransportFailover.RestartSkipsCooldown | crates/webgate-transport/src/failover.rs:71-89 | for every limit, a run with a restart in which two failovers happen at one instant |
| DualRelay.DualRelayFailoverTransport.Start | crates/webgate-transport/src/dual_failover.rs:192-255 | follows the step function, with each error case |
| DualRelay.DualRelayFailoverTransport.HandleFailoverClient | crates/webgate-transport/src/dual_failover.rs:462-633 | a whole request's stores and its reply code are one step |
| DualRelay.DualRelayFailoverTransport.ProbeAndMaybeSwitchback | crates/webgate-transport/src/dual_failover.rs:314-346 | a probe's stores and result are one step |
| DualRelay.RunConsistent | crates/webgate-transport/src/dual_failover.rs:192-633 | in every run Ready means the primary is active, Degraded the fallback, and a role means a listener |
| DualRelay.OfflineLeft | crates/webgate-transport/src/dual_failover.rs:298-346 | in every run, an offline relay leaves Offline by something other than start or stop if and only if its role is the fallback and a good probe comes at least a cooldown after the failover time |
| DualRelay.OfflineAbsorbs | crates/webgate-transport/src/dual_failover.rs:462-633 | offline with any role but the fallback nothing changes and every client is refused, until start or stop |
| DualRelay.CounterIsMisses | crates/webgate-transport/src/dual_failover.rs:314-633 | the primary's counter is its misses since its last good answer, probe or start, saturating in 32 bits |
| DualRelay.FallbackOnlyAtLimit | crates/webgate-transport/src/dual_failover.rs:507-592 | the primary is left for the fallback if and only if an admitted request fails on it, is answered by the fallback, and its miss reaches max(1, N) |
| DualRelay.FailuresSwitch | crates/webgate-transport/src/dual_failover.rs:507-592 | from a fresh primary, consecutive failed requests answered by the fallback keep the primary below max(1, N) of them and switch at that many, at that request's time |
| DualRelay.FailoverTimeKept | crates/webgate-transport/src/dual_failover.rs:536-552 | the kept failover time is that of the last request that found the misses at the limit |
| DualRelay.BackOnlyAfterCooldown | crates/webgate-transport/src/dual_failover.rs:314-346 | the fallback is left for the primary if and only if a good probe comes at least a cooldown after that time |
| DualRelay.ReplyExactly | crates/webgate-transport/src/dual_failover.rs:462-633 | what a client is told, in every run: general failure unless the relay serves, its own refusal, the code of the upstream that answers, the primary first, and connection refused when none does, which takes the relay offline |
| DualRelay.StartExactly | crates/webgate-transport/src/dual_failover.rs:192-255 | which start fails with which error, in every run, and what a start leaves behind |
| DualRelay.HealthTells | crates/webgate-transport/src/dual_failover.rs:314-633 | in every run each upstream's latency, probe time and mark are those of its last answer, its last try and what was last learnt of it |
| DualRelay.FallbackCounter | crates/webgate-transport/src/dual_failover.rs:554-633 | the fallback's counter is its misses since its last answer or start, saturating in 32 bits |
| DualRelay.FailoversSpan | crates/webgate-transport/src/dual_failover.rs:192-633 | with a clock that never goes back and no early start, failovers are spaced one by one and k of them span at least k - 1 cooldowns |
| DualRelay.StartStaysSpaced | crates/webgate-transport/src/dual_failover.rs:192-255 | after any such run, a start keeps every continuation's failovers spaced if and only if it does not put the primary back within a cooldown of the last failover |
| DualRelay.SlowPrimaryStays | crates/webgate-transport/src/dual_failover.rs:508-535 | no number of slow answers changes the role |
| DualRelay.SlowPrimaryLeft | crates/webgate-transport/src/failover.rs:136-187 | the failover controller leaves its primary after a limit's worth of them |
| DualRelay.LostListenerRevived | crates/webgate-transport/src/dual_failover.rs:298-346 | for every cooldown, a run that goes from Offline to Ready by a probe |
| HttpHead.HeaderEndIsFirst | crates/webgate-transport/src/restricted_http_connect.rs:400-405 | the search finds the first end of a head, and none exactly when there is none |
| HttpHead.FindPrefix | crates/webgate-transport/src/restricted_http_connect.rs:374-405 | what is found in a prefix of a stream is what the whole stream has there |
| HttpHead.ReadHttpHead | crates/webgate-transport/src/restricted_http_connect.rs:374-398 | for every division into reads the loop ends with the outcome of the whole stream: the shortest prefix ending in CRLFCRLF within max bytes, and head, tail and unread make up the stream |
| HttpGate.HeadExactly | crates/webgate-transport/src/restricted_http_connect.rs:374-405 | a head is read if and only if the first empty line of the stream ends within max bytes; otherwise the stream is malformed exactly when it ends before max bytes |
| HttpGate.ParsedExactly | crates/webgate-transport/src/restricted_http_connect.rs:407-460 | a request is read as a target and port if and only if it is UTF-8 without a continued header line and its first line is the words CONNECT, authority and HTTP/1.1 with white space between them, the authority naming that target and port |
| HttpGate.StatusExactly | crates/webgate-transport/src/restricted_http_connect.rs:283-345 | which client gets which of the statuses 503, 431, 405, 403 and 400 before the upstream is reached, exactly |
| HttpConnect.PrintedParses | crates/webgate-transport/src/restricted_http_connect.rs:407-460 | a CONNECT line printed for any host and port, addresses with colons in brackets, is read as that address or normalised domain and that port, whatever headers follow |
| HttpConnect.ParsedTarget | crates/webgate-transport/src/restricted_http_connect.rs:407-460 | whatever is read names a port other than 0 and an address or a domain in normal form, which can be asked for |
| HttpConnect.AskedAllowed | crates/webgate-transport/src/restricted_http_connect.rs:294-345 | the request sent for a client that is let through reads back as the target of that client's request line, and the policy allows it |
| HttpConnect.HandleClient | crates/webgate-transport/src/restricted_http_connect.rs:283-372 | however the bytes arrive: the status of the first check that fails; the upstream is left alone by refused clients, is sent the greeting and the allowed request, and gets the client's bytes after the head only after granting both, those read early first; a faulty upstream, and nothing else, takes the bridge offline |
| HttpConnect.ReadUpstreamReply | crates/webgate-transport/src/socks5_proto.rs:254-292 | reading step by step has the outcome of section 6 of RFC 1928 on the whole reply, truncated and malformed ones included |
| HttpGate.ReplyRoundTrip | crates/webgate-transport/src/socks5_proto.rs:254-292 | every reply of section 6 of RFC 1928, for every code, bound address and port, is read for its code, whatever follows |
| HttpGate.ReplyTruncated | crates/webgate-transport/src/socks5_proto.rs:254-292 | no strict prefix of one is read |
| HttpGate.ReplyExactly | crates/webgate-transport/src/socks5_proto.rs:254-292 | bytes are read with a code if and only if they begin with a reply that carries it |
| HttpGate.GrantedExactly | crates/webgate-transport/src/restricted_http_connect.rs:329-361 | a client is let through if and only if the upstream takes greeting and request, accepts the greeting, and answers with a reply that carries code 0 |
| HttpGate.FaultyExactly | crates/webgate-transport/src/restricted_http_connect.rs:329-352 | the upstream is at fault if and only if it does not take the greeting or accept it, or takes the request and answers with no reply at all |
| HttpGate.NegotiationExactly | crates/webgate-transport/src/socks5_proto.rs:177-192 | a local client goes on if and only if its greeting is of version 5 and offers method 0 among 1 to 255 methods |
| HttpGate.NegotiateLocalClient | crates/webgate-transport/src/socks5_proto.rs:177-192 | reading step by step has that outcome; the answer is 5 and 0, or 5 and 255, or nothing for a greeting cut short |
| SocksGrammar.NormalExactly | crates/webgate-transport/src/socks5_proto.rs:131-151 | a name has a normal form if and only if it is a host name, labels of 1 to 63 letters, digits and inner hyphens in at most 253 bytes, in any case and followed by any dots; the form is that host name in lower case |
| Socks5.NormalizeIdempotent | crates/webgate-transport/src/socks5_proto.rs:131-151 | a normalised domain normalises to itself |
| Socks5.NormalForm | crates/webgate-transport/src/socks5_proto.rs:131-151 | a normal form is lower-case printable ASCII of at most 253 bytes that does not end in a dot |
| Socks5.RequestRoundTrip | crates/webgate-transport/src/socks5_proto.rs:194-252 | what is written for a target and port is read back as the normalised target and that port, whatever follows |
| SocksGrammar.RequestExactly | crates/webgate-transport/src/socks5_proto.rs:194-252 | exactly the CONNECT requests of section 4 of RFC 1928 are read, as the target and port they say |
| SocksGrammar.AdmitSocks | crates/webgate-transport/src/dual_failover.rs:477-502 | reading the request and asking the policy step by step has the gate's outcome |
| SocksGrammar.SocksGateExactly | crates/webgate-transport/src/dual_failover.rs:477-502 | which client is refused with which of the codes 1, 7, 8 and 2, and which is let through, exactly |
| Socks5.WriteConnectRequest | crates/webgate-transport/src/socks5_proto.rs:225-252 | writes the request of section 4 of RFC 1928, or nothing for a domain without normal form |
| Socks5.ReadRequest | crates/webgate-transport/src/dual_failover.rs:477-497 | reading step by step has the codec's outcome with the reply each fault gets |
| Socks5.NewPolicy | crates/webgate-transport/src/socks5_proto.rs:53-89 | the first fault in the source's order, or the rules in order and the ports without repetition in ascending order |
| SocksGrammar.RuleExactly | crates/webgate-transport/src/socks5_proto.rs:65-78 | a rule is accepted if and only if it holds no white space or control character, and no star but in front, as "*." before something |
| Socks5.SortPorts | crates/webgate-transport/src/socks5_proto.rs:80-82 | sorting in place keeps exactly the ports there were |
| Socks5.BinarySearch | crates/webgate-transport/src/socks5_proto.rs:93-95 | binary search is membership |
| Socks5.BuildAndAsk | crates/webgate-transport/src/socks5_proto.rs:53-122 | a built policy answers by membership in the lists it was built from |
| Socks5.WildcardMeaning | crates/webgate-transport/src/socks5_proto.rs:103-113 | the suffix arithmetic allows exactly the hosts that are something non-empty, a dot and the suffix |
| Socks5.AllowsNormalized | crates/webgate-transport/src/socks5_proto.rs:92-122 | the policy answers alike for a target and for what the upstream is sent |
| Socks5.PlainRuleAllows | crates/webgate-transport/src/socks5_proto.rs:65-113 | a rule without wildcard allows some domain if and only if it is its own normal form, and some target if and only if that or some address prints as the rule |
| Socks5.WildcardRuleAllows | crates/webgate-transport/src/socks5_proto.rs:65-113 | a wildcard rule allows some domain if and only if some prefix makes with its suffix a normal form that is no address, and some target if and only if that or some address prints as the rule |
| Socks5.WildcardRuleCheck | crates/webgate-transport/src/socks5_proto.rs:65-113 | for prefixes the label a is enough to check |
| Socks5.DottedRuleAllowsNothing | crates/webgate-transport/src/socks5_proto.rs:65-113 | a rule that the constructor accepts and that ends in a dot allows no domain, and no target but an address that prints so |
| Decimals.DecimalParse | crates/webgate-core/src/policy.rs:179-190 | a printed port is read back |
| Decimals.ParseExactly | crates/webgate-core/src/policy.rs:98-125 | a text is read as a port if and only if it is an optional plus sign, any number of zeros, and the port as it is printed |
| UrlGrammar.TrimExactly | crates/webgate-core/src/policy.rs:48-51 | trimming takes exactly the white space at both ends |
| UrlGrammar.AuthorityExactly | crates/webgate-core/src/policy.rs:91-125 | an authority is read as a host and port if and only if it is the host, in brackets or without a colon, and a tail that is empty or a colon and the text of that port |
| UrlGrammar.ValidateExactly | crates/webgate-core/src/policy.rs:47-159 | a text is accepted as a URL if and only if, less the white space around it, it is free of control characters and is scheme, "://", authority and path, each as the policy wants it: told as a grammar, with the rules by what they cover and traversal by what the path contains |
| UrlGrammar.RefusedFor | crates/webgate-core/src/policy.rs:47-159 | whatever is refused is refused with the error that says what is wrong with it, first fault first |
| NavigationUrls.DomainMeaning | crates/webgate-core/src/policy.rs:139-151 | a wildcard rule allows exactly the hosts that are something non-empty followed by its suffix |
| NavigationUrls.ValidateAssembled | crates/webgate-core/src/policy.rs:47-159 | a URL put together from scheme, authority and path is split the same way |
| NavigationUrls.ValidateAccepted | crates/webgate-core/src/policy.rs:47-159 | what every accepted URL satisfies: allowed scheme, lower-case host without slash or userinfo, rooted path without traversal, no control characters |
| NavigationUrls.RoundTrip | crates/webgate-core/src/policy.rs:47-190 | an accepted URL printed and validated again comes back if and only if its host has no colon and opens no bracket |
| NavigationUrls.UnbracketedRoundTrip | crates/webgate-core/src/policy.rs:47-190 | so always, for every policy, when the authority was not a bracketed literal |
| NavigationUrls.Ipv6LiteralLost | crates/webgate-core/src/policy.rs:179-190 | an accepted IPv6 URL whose printed form is refused |

## Left out

- Number theory: primality of p, d not being a square, associativity of the Edwards group and the order of the base point are hypotheses of the lemmas that use them.
- Sha512Hasher.HashPieces: messages of 2^125 bytes and more, whose bit length no longer fits 128 bits, are excluded.
- Clearing of secrets, constant-time behaviour, hexadecimal output and the keypair's text form are not modelled.
- TunnelSafety.Conservation: covers one session and the ids other sessions draw from the relay's counter; the choice between sessions, authentication, heartbeat timing and reconnecting are not modelled, and a closing agent or relay counts as a broken session.
- TunnelSafety.Invariant: some steps are allowed more often than the code takes them (a close may be sent twice, a writer may quit whenever the session is down), so it holds of more runs than there are.
- TunnelDelivery.Freed: says that a blocked frame loop can be freed, not that a fair scheduler frees it.
- TunnelDelivery.HangUpExact: a refused dial counts as a fault of the continuation; after a failed write or a broken session nothing is claimed but `Isolation`.
- Socket timeouts, TLS, threads and locks: reads and writes are sequences with arbitrary divisions and failures; registry calls are atomic, as their lock makes them.
- RegistrySpec.RunInvariant: Restore is not among the calls that keep the store in step, since it replaces memory without writing; `RestartRestores` says what it gives on the store's own rows.
- Upstream parsing (`CanonicalizeUpstreamURL` and Go's `url.Parse`), `strings.TrimSpace`, JSON and SQLite are parameters, with the laws used written out in `Lawful`.
- The time zone conversion of StartedAt and the clock are parameters of the calls.
- DualRelay.RunConsistent: a step is a whole request; the interleaving of two requests' stores to the separate state and role atomics is not modelled, nor are poisoned locks.
- Socks5.NormalizeIdempotent: strings are their UTF-8 bytes; Unicode trimming, white space, IP literals and the text of addresses are parameters.
- `sort_unstable` is modelled by insertion, since only its result matters.
- HttpConnect.HandleClient: the text of the HTTP answers, failures to write them and the copy from the upstream back to the client are not modelled; control characters above ASCII are refused with the domains and ports they occur in.
- Device and release registries, session manager, broker gate, Android lifecycle, browser adapter, dashboard, Telegram bot and packaging are small state machines or plumbing.
