# Verification of the crypto and TLS core

This project models the cryptographic core of the repository's `crypto/` directory in Dafny and proves what
it is for: multi-precision arithmetic up to RSA and PKCS #1, the TLS client with its record layer, and the
codecs and modes around them (GHASH and GCM, AES key wrap, streaming hashes, DER, base64).
`dafny verify dfyconfig.toml` checks everything.

## What is modelled

**Bignums to RSA.** `MpInt` is the digit buffer, its used count and its sign. Each operation is an imperative
method with the source's loops and 28-bit digits in 32-bit words and 64-bit products, proved against a
one-line specification on the number it stands for: `Digits`, `MpInt`, `AddSub`, `Shift`, `Mul`, `Div`,
`Barrett`, `ExptMod`, `BinIO`, `Rsa`, `Pkcs1`. The fast build has its own modules with the same
specifications: `Comba`, `HacDiv`, `Montgomery`. `Redux` says what the two reductions have in common, so that
the sliding-window exponentiation is proved once for both. `NumberTheory` proves Fermat's little theorem from
the binomial theorem; nothing about primes is taken for granted.

**TLS client.** `Record` specifies what a record is and what a receiver makes of any input; `RecordLayer` is
the object that does it in buffers; `Streams` follows sequences of records and split input. `TlsClient`,
`ClientWrite`, `ClientRead` and `Client` are the connection object and its handlers. A ghost history of what
was sent, accepted, switched, matched and found good is kept beside the connection; its invariant is what every
handler keeps, and `Client.Run` states it over all runs. What each state accepts is stated exactly; `Honest`
uses that for what certain servers can bring about, and `TwoEnds` puts a server with a record layer of its own
beside the client and follows both through the handshake's records to application data in both directions.
Block ciphers, RC4 keys, HMAC, hashes, the PRF, RSA and Diffie-Hellman primitives and certificate checks are
arbitrary functions (`DhParams` reads the parameters of a ServerKeyExchange); of the block cipher only
D(E(x)) = x and the block length are assumed (for key wrap also E(D(x)) = x), of MAC and PRF their output
lengths, of signatures over key exchange parameters that none is right without a key, and of the Diffie-Hellman
exponentiation that it does not succeed without parameters.

**Codecs and modes.** `Gf128` has polynomials over GF(2) and the field product, `GfBlocks` the octet-level
code, `Gcm` the mode; `KeyWrap`; `BlockHash`, `Sha1`, `Md5`, `Sha256` over any compression function; `Der`,
`Oid`; `Base64`.

Members named `...Is`, `...Are` and `...Iff` write a specification out in numbers and octets, without the names of
the functions it is made of.

The build modelled is a 32-bit one with 28-bit digits, with `CONFIG_TLSV12` and without `CONFIG_TLSV11`, so
that versions 1.0 and 1.2 are accepted. `LTM_FAST` is covered by its own members.

## What came out

- The size check of `crypto_rsa_exptmod` lets the modulus itself through as input; its result is zero, and the
  round trip holds exactly for inputs below the modulus (`Rsa.RoundTrip`).
- Block type 1 data of fewer than 16 octets is refused by the verification although it can be signed
  (`Pkcs1.SignatureRoundTrip`).
- For modulus 1 and exponent 0 the Barrett exponentiation returns 1 and the Montgomery one 0
  (`ExptMod.PowerOutIsResidue`).
- In the digit-wise division the comparison of the estimate is made on a number that is not clamped, so the
  refinement is skipped when the leading digit is zero; still one add-back is enough (`HacDiv.RefineCompare`,
  `HacDiv.SubtractDigit`).
- Montgomery reduction adds into one column it has not initialised; its content does not reach the result
  (`Montgomery.FinalCarries`).
- `fast_s_mp_mul_digs` makes room for the digits asked for and copies one more; where a product is cut off, in
  `mp_reduce`, that digit has room (`Comba.CombaMul`, `Barrett.SubtractEstimate`).
- Records are received up to 17403 octets of payload, more than the 2^14 of the protocol
  (`Record.RecordRoundTrip`).
- A failed `tlsv1_client_decrypt` raises an alert but leaves the connection established; `partial_input` and
  `use_session_ticket` survive a shutdown (`Client.Decrypt`, `Client.Shutdown`).
- `tlsv1_client_encrypt` and `tlsv1_client_decrypt` ask for no state: application data sent before the handshake
  goes out in the clear in front of the ClientHello (`Client.Encrypt`, `TlsLog.CompletedMeans`).
- With an ephemeral suite ServerHelloDone is accepted in place of ServerKeyExchange, and Diffie-Hellman parameters
  survive a shutdown. So an established connection with a DHE_RSA suite need not have used parameters that were
  signed in its handshake. It has if there were none when its ClientHello was sent (`Client.Run`,
  `Client.ParamsAreVouched`), and whenever there were some, a server can have them used that has shown nothing
  (`Honest.LeftOver`); a handshake broken off behind its ServerKeyExchange leaves them (`Honest.TwoConnections`).
- After a session ticket was given up for a full handshake, a connection that counts as resumed tries a second
  ChangeCipherSpec; its Finished fails because the transcript context is used up. Such a fallback succeeds exactly
  when the session does not count as resumed (`Honest.FallsBack`, `ClientWrite.WriteFinished`).
- `alert_level` survives a shutdown and fails every later handshake: a connection that is not established while an
  alert is pending stays so for good (`Client.Continue`).
- With 32-bit sizes the bit lengths of GHASH wrap around from 2^29 octets on (`Gcm.LengthsExact`).
- The DER parser takes private tags below 31 in long form too, and object identifiers with needless leading
  groups (`Der.PrivateTagTwice`, `Oid.NotCanonical`); the exact conditions are `Der.ReprintIff`
  and `Oid.ReprintIff`.

## Model

| member | source | states |
|---|---|---|
| `Rsa.RoundTrip` | crypto/tls/rsa.c:277-334 | private after public and public after private give the input back as fixed-width octets, exactly when the input is below the modulus; for every key of distinct odd primes with matching exponents and coefficient |
| `Rsa.AlwaysFits` | crypto/tls/rsa.c:270-330 | the operation succeeds exactly for inputs up to the modulus with room for its octets, and its result is below the modulus, so the exit for an oversized result is never taken |
| `Rsa.OutcomeIs` | crypto/tls/rsa.c:256-343 | every outcome for any key: an input above the modulus or an unusable key is refused, too little room is reported with the octets of the modulus, and otherwise the result is written in the modulus's width |
| `Rsa.PrivateAfterPublic` | crypto/tls/rsa.c:291-318 | the CRT result of the public power is the input modulo n |
| `Rsa.PublicAfterPrivate` | crypto/tls/rsa.c:291-318 | the public power of the CRT result is the input modulo n |
| `Rsa.PrivateResidues` | crypto/tls/rsa.c:291-312 | for any input the CRT value lies in [0, n) and is the right power modulo p and modulo q |
| `Rsa.ChineseRemainder` | crypto/tls/rsa.c:304-312 | ((a - b) * iqmp mod p) * q + b is below pq and has residues a and b |
| `Rsa.RsaExptMod` | crypto/tls/rsa.c:256-343 | refuses an input above n or too small an output, otherwise writes zeros and the octets of the result, right-aligned in exactly the modulus length, and leaves the rest of the buffer and the key alone |
| `Rsa.PrivateOperation` | crypto/tls/rsa.c:291-312 | the number computed step by step in tmp is the CRT value, whatever the signs of the intermediate differences |
| `Rsa.Recombine` | crypto/tls/rsa.c:304-312 | the in-place recombination computes ((a - b) * iqmp mod p) * q + b |
| `Rsa.FixedWidth` | crypto/tls/rsa.c:329-334 | the output has exactly modlen octets, the number's octets at the end and zeros in front |
| `NumberTheory.ExponentsUndo` | crypto/tls/rsa.c:283-302 | exponents inverse modulo p - 1 undo each other modulo the prime p (Fermat, proved from the binomial theorem) |
| `NumberTheory.Fermat` | crypto/tls/rsa.c:283-302 | a^p = a modulo a prime p |
| `NumberTheory.AgreeModProduct` | crypto/tls/rsa.c:304-316 | agreement modulo two distinct primes is agreement modulo their product |
| `Pkcs1.EncryptionRoundTrip` | crypto/tls/pkcs1.c:18-131 | block type 2 encryption succeeds exactly up to modlen - 11 octets, and the private decryption returns the data (section 8.1 of RFC 2313) |
| `Pkcs1.SignatureRoundTrip` | crypto/tls/pkcs1.c:18-197 | block type 1 data comes back from the public decryption exactly when it has at least 16 octets; shorter data is refused |
| `Pkcs1.StripEncryptedIff` | crypto/tls/pkcs1.c:108-130 | stripping accepts exactly the blocks 00 02 PS 00 D with eight or more nonzero octets of padding, and returns D |
| `Pkcs1.StripSignedIff` | crypto/tls/pkcs1.c:156-196 | the same for verification: which blocks are accepted, and with what data |
| `Pkcs1.StripEncryptedIs` | crypto/tls/pkcs1.c:108-130 | octet by octet: 0, 2, at least eight nonzero octets, a zero, and the data |
| `Pkcs1.StripSignedIs` | crypto/tls/pkcs1.c:156-196 | octet by octet: 0, 1, at least eight octets 0xff, a zero, and at least 16 octets of data |
| `Pkcs1.EncryptedIs` | crypto/tls/pkcs1.c:18-94 | for each block type the other operation shows the block that was built, its padding from the random octets with ones for zeros, whenever there are eleven octets besides the data |
| `Pkcs1.BlockBelowModulus` | crypto/tls/pkcs1.c:44-46 | a block begins with a zero octet and so is a number below the modulus |
| `Pkcs1.GenerateEncryptionBlock` | crypto/tls/pkcs1.c:18-78 | succeeds exactly when sizes and type allow, writes 00 BT PS 00 D with zero random octets replaced, and touches nothing else |
| `Pkcs1.RandomPadding` | crypto/tls/pkcs1.c:57-68 | random padding octets are kept except that zeros become ones |
| `Pkcs1.Encrypt` | crypto/tls/pkcs1.c:81-94 | block and RSA operation in one buffer |
| `Pkcs1.PrivateKeyDecrypt` | crypto/tls/pkcs1.c:97-131 | RSA operation and in-place stripping with all checks |
| `Pkcs1.DecryptPublicKey` | crypto/tls/pkcs1.c:134-197 | RSA operation and in-place stripping of type 1 blocks with all checks |
| `ExptMod.BarrettExptMod` | crypto/tls/libtommath.c:1883-2109 | in either build, sliding-window exponentiation over Barrett reduction delivers G^X mod P for every P > 0, G and X >= 0 (the literal 1 for X = 0) |
| `ExptMod.PowerOutIsResidue` | crypto/tls/libtommath.c:1992-1996 | the delivered number is the residue of the power, exactly unless P = 1 meets X = 0 |
| `ExptMod.PowerByWindows` | crypto/tls/libtommath.c:1948-2100 | table, main loop and unfinished window together raise the register to the whole exponent |
| `ExptMod.ScanBits` | crypto/tls/libtommath.c:1998-2073 | all exponent bits are consumed most significant first, leading zero bits included; what is not yet in the result is in the window |
| `ExptMod.ExponentBit` | crypto/tls/libtommath.c:2020-2072 | one bit squares, opens or extends a window, and a full window is flushed |
| `ExptMod.FlushWindow` | crypto/tls/libtommath.c:2048-2072 | w squarings and one multiplication by the table cell of the window's value |
| `ExptMod.FinishWindow` | crypto/tls/libtommath.c:2075-2097 | the unfinished last window, bit by bit with M[1] |
| `ExptMod.BuildTable` | crypto/tls/libtommath.c:1960-1990 | the table holds the powers that are read: M[1] and M[2^(w-1)] up to M[2^w - 1], and no other cell is filled |
| `ExptMod.NextBit` | crypto/tls/libtommath.c:2009-2022 | the bit taken from the digit buffer is the next bit of the exponent |
| `ExptMod.ExptModBits` | crypto/tls/libtommath.c:591-682 | mp_exptmod in the default build: refuses P <= 0 and X < 0 without touching Y, otherwise the power |
| `ExptMod.ExptModFast` | crypto/tls/libtommath.c:2962-3245 | Montgomery exponentiation: for odd P of at most 255 digits the residue of the power, otherwise refused |
| `ExptMod.ExptModAny` | crypto/tls/libtommath.c:591-682 | the LTM_FAST build: odd moduli through Montgomery and even ones through Barrett, over the column-wise products and the digit-wise division, deliver the same residue |
| `ExptMod.RegisterTimes` | crypto/tls/libtommath.c:2060-2066 | multiplying two registers and reducing gives the register of the summed exponents, for either reduction |
| `ExptMod.MontgomeryStart` | crypto/tls/libtommath.c:3077-3091 | R mod P stands for the zeroth power and G * R mod P for the first |
| `ExptMod.MontgomeryEnd` | crypto/tls/libtommath.c:3223-3233 | the last reduction cancels the radix |
| `Redux.CancelRadix` | crypto/tls/libtommath.c:3223-3233 | a Montgomery radix can be cancelled modulo an odd modulus |
| `Redux.Apply` | crypto/tls/libtommath.c:2035-2040 | either reduction turns x into the representative below P of x divided by its radix |
| `Barrett.Reduce` | crypto/tls/libtommath.c:2260-2336 | x mod m for every x of at most twice the digits of m, with at most um + 2 subtractions in the back-off loop |
| `Barrett.EstimateUpper` | crypto/tls/libtommath.c:2270-2297 | the estimated quotient is never too large, even from the truncated product |
| `Barrett.EstimateLower` | crypto/tls/libtommath.c:2270-2297 | and at most three plus the worth of the dropped columns too small |
| `Barrett.EstimateQuotient` | crypto/tls/libtommath.c:2265-2297 | both product variants give an estimate within the bound |
| `Barrett.EstimateGap` | crypto/tls/libtommath.c:2299-2323 | such an estimate leaves a difference below beta^(um+1) |
| `Barrett.SubtractEstimate` | crypto/tls/libtommath.c:2299-2323 | so the subtraction modulo beta^(um+1), with its correction, is the true difference |
| `Barrett.BackOff` | crypto/tls/libtommath.c:2325-2330 | the back-off loop ends in [0, m) after subtracting as often as it fits |
| `Barrett.ReduceSetup` | crypto/tls/libtommath.c:2245-2253 | mu is the quotient of beta^(2 um) by m |
| `Mul.MulHighDigs` | crypto/tls/libtommath.c:2596-2650 | the product without the columns below digs, carries between the kept columns included |
| `Mul.HighPartError` | crypto/tls/libtommath.c:2596-2650 | what is dropped is worth less than digs * beta^(digs+1) |
| `Mul.MulDigs` | crypto/tls/libtommath.c:2343-2408 | |a| * |b| modulo beta^digs for every digs > 0 |
| `Mul.LowSqr` | crypto/tls/libtommath.c:2530-2590 | a squared |
| `Mul.SqrRow` | crypto/tls/libtommath.c:2545-2584 | one row of the square, doubled products and carries below 2 * beta included |
| `Mul.PropagateCarry` | crypto/tls/libtommath.c:2578-2583 | the carry loop without a bound of its own stops inside the 2 * used + 1 digits |
| `Mul.SquareBounded` | crypto/tls/libtommath.c:2545-2584 | every partial sum of the square stays below beta^(2 used) |
| `Mul.Product` | crypto/tls/libtommath.c:493-536 | mp_mul with signs |
| `Mul.Sqr` | crypto/tls/libtommath.c:2113-2147 | mp_sqr |
| `Comba.CombaMul` | crypto/tls/libtommath.c:2428-2497 | the column-wise product of the fast build, cut off at any digit, is the product modulo that power of beta, as the row-wise one is |
| `Comba.LowDigits` | crypto/tls/libtommath.c:2343-2358 | s_mp_mul_digs in either build |
| `Comba.SummedDigits` | crypto/tls/libtommath.c:2444-2476 | the digits written are the product without the carry that is left and the columns that are not summed |
| `Comba.CombaSqr` | crypto/tls/libtommath.c:3260-3341 | the column-wise square |
| `Comba.ColumnsAreProduct` | crypto/tls/libtommath.c:2444-2476 | the columns, each with its own digit pairs, add up to the product |
| `Comba.SquareColumn` | crypto/tls/libtommath.c:3281-3314 | a column of the square is twice the half that the loop sums, plus the middle square |
| `Comba.Multiply` | crypto/tls/libtommath.c:493-536 | mp_mul in either build |
| `Comba.Square` | crypto/tls/libtommath.c:2113-2147 | mp_sqr in either build |
| `Div.DivBits` | crypto/tls/libtommath.c:1609-1674 | the bit-at-a-time division: quotient and remainder, refusing zero divisors |
| `Div.DivisionUnique` | crypto/tls/libtommath.c:1609-1674 | quotient and remainder are the only pair with x = q * y + r, |r| < |y|, r zero or signed like x |
| `Div.Mod` | crypto/tls/libtommath.c:560-583 | mp_mod: the remainder moved into the divisor's sign |
| `Div.ResidueIsMod` | crypto/tls/libtommath.c:560-583 | which for a positive modulus is the least nonnegative residue |
| `HacDiv.DivDigits` | crypto/tls/libtommath.c:1691-1872 | the digit-wise division meets the same contract as the bit-wise one on every input |
| `HacDiv.SubtractDigit` | crypto/tls/libtommath.c:1817-1843 | after the multiply-and-subtract at most one add-back is needed |
| `HacDiv.EstimateDigit` | crypto/tls/libtommath.c:1778-1815 | the refined digit estimate against three leading digits of x and two of y |
| `HacDiv.EstimateOffByOne` | crypto/tls/libtommath.c:1778-1843 | with a top digit of at least 2^26 such an estimate is the true digit or one more |
| `HacDiv.NormalizeOperands` | crypto/tls/libtommath.c:1727-1751 | both operands are shifted until the divisor's top digit has DIGIT_BIT - 1 bits |
| `HacDiv.FirstDigit` | crypto/tls/libtommath.c:1757-1770 | the top quotient digit by plain subtraction |
| `HacDiv.DivideDigits` | crypto/tls/libtommath.c:1772-1844 | the loop over all further digits keeps x = q * y + r |
| `HacDiv.Denormalized` | crypto/tls/libtommath.c:1846-1862 | shifting back gives quotient and remainder of the original operands |
| `HacDiv.ModDigits` | crypto/tls/libtommath.c:560-583 | mp_mod over the digit-wise division |
| `HacDiv.MulD` | crypto/tls/libtommath.c:3348-3402 | multiplication by one digit |
| `Montgomery.MontgomerySetup` | crypto/tls/libtommath.c:2656-2690 | rho = -1/n modulo beta for odd n, refusal for even n |
| `Montgomery.NewtonStep` | crypto/tls/libtommath.c:2674-2681 | each Newton step squares the modulus of the inverse |
| `Montgomery.InverseWrapped` | crypto/tls/libtommath.c:2674-2681 | 32-bit wrap-around keeps it |
| `Montgomery.CalcNormalization` | crypto/tls/libtommath.c:2919-2949 | the residue of beta^used modulo the odd modulus |
| `Montgomery.MontgomeryReduce` | crypto/tls/libtommath.c:2703-2844 | x / beta^used modulo n, below n, for x up to n * beta^used |
| `Montgomery.ReduceRow` | crypto/tls/libtommath.c:2745-2788 | one row clears the lowest column; no column outgrows 64 bits under the digit limit |
| `Montgomery.ClearsColumn` | crypto/tls/libtommath.c:2752-2784 | the row's factor makes the lowest column a multiple of beta |
| `Montgomery.FinalCarries` | crypto/tls/libtommath.c:2798-2808 | the last carry pass, the uninitialised word above it included |
| `Montgomery.DigitsOfQuotient` | crypto/tls/libtommath.c:2810-2842 | the quotient is below 2n, so the copied digits lose no carry and one subtraction is enough |
| `Montgomery.Double` | crypto/tls/libtommath.c:2850-2908 | mp_mul_2 in place |
| `AddSub.Add` | crypto/tls/libtommath.c:424-452 | a + b with signs, destination allowed to be a source |
| `AddSub.Sub` | crypto/tls/libtommath.c:456-489 | a - b with signs, destination allowed to be a source |
| `AddSub.LowAdd` | crypto/tls/libtommath.c:220-304 | |a| + |b|, the higher digits of an older value cleared |
| `AddSub.LowSub` | crypto/tls/libtommath.c:308-371 | |a| - |b|, borrows by 32-bit wrap-around |
| `AddSub.Borrow` | crypto/tls/libtommath.c:336-349 | the sign bit of the wrapped difference is the borrow and the masked difference the digit |
| `Shift.Mul2d` | crypto/tls/libtommath.c:1384-1445 | a * 2^b, in place or not |
| `Shift.Div2d` | crypto/tls/libtommath.c:1025-1098 | quotient by 2^b toward zero, and remainder |
| `Shift.Mod2d` | crypto/tls/libtommath.c:1573-1603 | the low b bits, with the sign of a |
| `Shift.Lshd` | crypto/tls/libtommath.c:1502-1545 | b zero digits at the bottom |
| `Shift.Rshd` | crypto/tls/libtommath.c:1176-1224 | the b low digits dropped |
| `Shift.CountBits` | crypto/tls/libtommath.c:1549-1569 | the position above the highest set bit |
| `Shift.TwoExpt` | crypto/tls/libtommath.c:2220-2239 | 2^b |
| `Shift.RaisedDigit` | crypto/tls/libtommath.c:1424-1436 | shifting a digit in a 32-bit word and masking it, with the high bits read beforehand, loses nothing |
| `MpInts.MpInt.Clamp` | crypto/tls/libtommath.c:1247-1260 | no leading zero digit, zero positive, value unchanged |
| `MpInts.MpInt.Grow` | crypto/tls/libtommath.c:1264-1297 | more room, new digits zero, value unchanged |
| `MpInts.Copy` | crypto/tls/libtommath.c:1129-1172 | same value, older digits above it cleared |
| `MpInts.Exch` | crypto/tls/libtommath.c:1230-1237 | the two numbers trade places |
| `MpInts.CmpMag` | crypto/tls/libtommath.c:927-958 | comparison of magnitudes |
| `MpInts.Cmp` | crypto/tls/libtommath.c:686-704 | signed comparison |
| `MpInts.CmpD` | crypto/tls/libtommath.c:708-728 | comparison with one digit |
| `BinIO.ReadUnsignedBin` | crypto/tls/libtommath.c:962-993 | the number an octet string stands for |
| `BinIO.ToUnsignedBin` | crypto/tls/libtommath.c:997-1021 | the shortest octets of |a| at their place in the buffer |
| `BinIO.UnsignedBinSize` | crypto/tls/libtommath.c:762-766 | the number of those octets |
| `BinIO.Reverse` | crypto/tls/libtommath.c:202-216 | in-place reversal of a stretch |
| `Bytes.FixedVal` | crypto/tls/libtommath.c:962-1021 | reading what was written with leading zeros gives the number back |
| `Bytes.ValFixed` | crypto/tls/libtommath.c:962-1021 | writing what was read in the same width gives the octets back |
| `Streams.StreamRoundTrip` | crypto/tls/tlsv1_record.c:150-485 | any sequence of sent records is received unchanged and in order, both ends in step after every record, and what follows is read from there |
| `Record.RecordRoundTrip` | crypto/tls/tlsv1_record.c:150-485 | a record sent is received with its payload, whatever follows, exactly when it has at most 17403 octets; the two ends stay mirrored, and with explicit initialization vectors they need not start with equal chaining values (section 6.2.3.2 of RFC 5246) |
| `Record.StaysMirrored` | crypto/tls/tlsv1_record.c:249-255 | after a record both directions hold equal sequence numbers and chaining state |
| `Record.BodyOpens` | crypto/tls/tlsv1_record.c:355-468 | decryption, padding check and MAC check recover the payload of a mirrored writer |
| `Record.UnpadPadded` | crypto/tls/tlsv1_record.c:391-419 | padding of any amount is taken off again |
| `Record.IncrementedCounts` | crypto/tls/tlsv1_record.c:254-255 | sequence numbers count up modulo 2^64 |
| `Record.RecordIs` | crypto/tls/tlsv1_record.c:150-260 | a record written out: type, version, length, and the encryption of vector, payload, HMAC of sequence number, header and payload, and the shortest padding to whole blocks |
| `Record.HeaderRefused` | crypto/tls/tlsv1_record.c:289-353 | what is incomplete, and which alert a wrong version, length, type or lack of room gives, in this order |
| `Record.ClearIs` | crypto/tls/tlsv1_record.c:469-484 | under the null cipher the body is the payload, up to 17403 octets, and the sequence number counts |
| `Record.CipherRefuses` | crypto/tls/tlsv1_record.c:355-361 | a complete record is refused with decryption_failed exactly when the cipher does not take its length |
| `Record.AuthenticAccepted` | crypto/tls/tlsv1_record.c:355-485 | a body that decrypts to vector, payload, HMAC of sequence number, header and payload, and right padding delivers the payload and moves the reading state on |
| `Record.OnlyAuthentic` | crypto/tls/tlsv1_record.c:391-465 | and without these parts the record is refused with bad_record_mac |
| `Record.DeliveredIs` | crypto/tls/tlsv1_record.c:391-465 | so what is delivered was followed by its MAC and by right padding in the decrypted body |
| `RecordLayers.RecordLayer.Send` | crypto/tls/tlsv1_record.c:150-260 | the buffer gets exactly the record of the specification, or the call fails exactly when there is no room; sequence number and cipher state move one step |
| `RecordLayers.RecordLayer.Receive` | crypto/tls/tlsv1_record.c:278-485 | incomplete, refused with its alert, or accepted with payload, length and the next reading state, as the specification says for the same input; what is delivered under a cipher stands in the decrypted body behind the explicit vector, followed by the HMAC of sequence number, header and payload and by right padding to the end |
| `RecordLayers.RecordLayer.Protect` | crypto/tls/tlsv1_record.c:201-252 | MAC, padding and encryption in place |
| `RecordLayers.RecordLayer.Unprotect` | crypto/tls/tlsv1_record.c:355-468 | decryption and all checks, what they let through being exactly what Record.OnlyAuthentic and Record.AuthenticAccepted say; wrong padding is found out only after the MAC was computed |
| `RecordLayers.CheckPadding` | crypto/tls/tlsv1_record.c:391-419 | every padding octet must hold the padding length |
| `RecordLayers.CheckFrame` | crypto/tls/tlsv1_record.c:289-353 | the header checks in their order |
| `RecordLayers.RecordLayer.ChangeWriteCipher` | crypto/tls/tlsv1_record.c:75-98 | sequence number zero and a fresh cipher state from key and vector |
| `RecordLayers.RecordLayer.ChangeReadCipher` | crypto/tls/tlsv1_record.c:109-132 | the same for reading |
| `RecordLayers.RecordLayer.SetCipherSuite` | crypto/tls/tlsv1_record.c:30-64 | the parameters of a known suite, single DES apart; an unknown one is refused |
| `RecordLayers.RecordLayer.DealKeys` | crypto/tls/tlsv1_client.c:116-145 | the key block is dealt out to MAC secrets, keys and vectors of both directions |
| `RecordLayers.KeyedParts` | crypto/tls/tlsv1_client.c:116-145 | the parts of the key block in their order: client and server MAC secret, keys, and in TLS 1.0 vectors |
| `RecordLayers.SuiteColumns` | crypto/tls/tlsv1_common.c:26-125 | key exchange, cipher, key length and hash of every suite |
| `RecordLayers.SuiteRows` | crypto/tls/tlsv1_common.c:26-125 | which suites there are |
| `RecordLayers.CipherInit` | crypto/crypto_internal-cipher.c:43-100 | which key lengths are accepted, and the starting state |
| `Cipher.CryptoCipher.Encrypt` | crypto/crypto_internal-cipher.c:103-163 | CBC or RC4 in place, the chaining state kept for the next call; lengths that are no whole blocks are refused without effect |
| `Cipher.CryptoCipher.Decrypt` | crypto/crypto_internal-cipher.c:166-227 | the same backwards, from one buffer into another |
| `Cipher.CbcRoundTrip` | crypto/crypto_internal-cipher.c:103-227 | decryption undoes encryption over any number of blocks, given only D(E(x)) = x |
| `Cipher.CbcResync` | crypto/crypto_internal-cipher.c:185-222 | a wrong initialization vector spoils the first block only |
| `Cipher.DecryptsWhatWasEncrypted` | crypto/crypto_internal-cipher.c:103-227 | equal states undo each other and advance alike |
| `Cipher.ChainedState` | crypto/crypto_internal-cipher.c:103-227 | CBC block by block, in both directions, from the chaining value kept in the context |
| `Cipher.StreamState` | crypto/crypto_internal-cipher.c:103-227 | RC4 octet by octet, from the octets already used |
| `Cipher.ContinuesState` | crypto/crypto_internal-cipher.c:103-227 | two calls, the second from the state the first leaves, are one call, in both directions and for both kinds of cipher |
| `Rc4.Rc4Skip` | crypto/rc4.c:16-54 | the stretch of the buffer is XORed with the key stream from skip on, nothing else changes |
| `Rc4.Continues` | crypto/rc4.c:16-54 | two calls, the second skipping what the first used, are one call |
| `Rc4.CryptTwice` | crypto/rc4.c:16-54 | applying the same stretch twice gives the data back |
| `Rc4.AlwaysPermutation` | crypto/rc4.c:20-41 | the state array stays a permutation |
| `Rc4.ScheduleIs` | crypto/rc4.c:23-34 | one round of the key schedule, from the identity permutation |
| `Rc4.GeneratorIs` | crypto/rc4.c:37-49 | one step of the generator |
| `Rc4.CryptedAt` | crypto/rc4.c:43-51 | every octet is masked with the entry the two swapped ones add up to |
| `Streams.FragmentationIndependent` | crypto/tls/tlsv1_client.c:330-433 | any split of a byte stream over calls gives the plaintext, kept input and reading state of one call, and fails with the same alert if and only if the one call does |
| `Streams.DecodedSplit` | crypto/tls/tlsv1_client.c:343-425 | decoding a first part and then what it left with the rest is decoding the whole |
| `Streams.RestIsSuffix` | crypto/tls/tlsv1_client.c:373-389 | what is kept is the unconsumed end of the input and no complete record |
| `Streams.DecodedIs` | crypto/tls/tlsv1_client.c:355-425 | what each kind of first record does to a call: data, a warning, any other alert, another type, a refusal, or no whole record |
| `Streams.ReceiptStable` | crypto/tls/tlsv1_record.c:289-331 | more input does not change what a complete record is taken for |
| `Client.Decrypt` | crypto/tls/tlsv1_client.c:330-433 | in any state computes that decoding on partial_input and the new input, keeps the rest, and on failure raises the alert and forgets the partial input |
| `Client.DecodeLoop` | crypto/tls/tlsv1_client.c:355-425 | the record loop computes it record by record |
| `Client.Encrypt` | crypto/tls/tlsv1_client.c:297-315 | in any state one record of application data as the record layer builds it, or an alert for lack of room |
| `Client.Run` | crypto/tls/tlsv1_client.c:163-720 | over every run of calls to handshake, encrypt, decrypt and shutdown, in any order and state and with arbitrary inputs: an established connection has a completed handshake; the parameters it used with a DHE_RSA suite, unless it was resumed, are in its history with both of its randoms and a signature right under the key of a certificate chain accepted before them, if no parameters were left over when the ClientHello was sent, and without a shutdown there are none; while no alert is pending every unfinished transcript hash has seen exactly the handshake messages |
| `Client.Continue` | crypto/tls/tlsv1_client.c:163-720 | once an alert is pending on a connection that is not established, no further calls establish it, not even a shutdown and a new handshake |
| `Client.Perform` | crypto/tls/tlsv1_client.c:163-720 | any call keeps the invariant, and only shutdown leaves the failed state |
| `Client.EstablishedIsCompleted` | crypto/tls/tlsv1_client.c:537-540 | since the last shutdown: a ClientHello, then one read-cipher switch, one matching server Finished, one ChangeCipherSpec and one Finished sent, both directions on the negotiated suite (sections 7.3 and 7.4.9 of RFC 5246) |
| `TlsLog.CompletedMeans` | crypto/tls/tlsv1_client_read.c:1319-1449 | spelled out on the history: nothing but application data before the ClientHello, the match comes after the switch, each Finished is the twelve octets of PRF(master secret, label, digest of exactly the messages before it), SHA-256 in TLS 1.2 and MD5 with SHA-1 before, and there is one Finished, one match, one switch and one ChangeCipherSpec |
| `TlsLog.TranscriptIs` | crypto/tls/tlsv1_common.c:238-261 | the transcript grows by the handshake messages sent and accepted, and by nothing else |
| `Client.RsaIsVouched` | crypto/tls/tlsv1_client_read.c:446-637 | an established connection that was not resumed and has an RSA suite has in its history, after the ClientHello, a list of certificates that all parsed and were accepted as a chain, the first of which has the server's key |
| `Client.ParamsAreVouched` | crypto/tls/tlsv1_client_write.c:344-463 | an established connection that was not resumed and has a DHE_RSA suite used parameters in its key exchange, and unless they are those that were there before its ClientHello, they came after it: their octets are signed together with the client and server random of this connection under the key of the first certificate of a chain accepted before them |
| `Honest.LeftOver` | crypto/tls/tlsv1_client_read.c:1068-1070 | the converse: whatever parameters are there when the ClientHello is sent, if they give a share of ordinary size, a server that sends ServerHelloDone right behind its ServerHello has them used with a DHE_RSA suite, and the connection gets established with nothing vouched for or signed in its history |
| `Honest.TwoConnections` | crypto/tls/tlsv1_client.c:700-720 | a run that ends so from a connection without parameters: broken off by an alert behind the first ServerKeyExchange, shut down, and taken up again by a server that proves nothing |
| `Client.TranscriptsAgree` | crypto/tls/tlsv1_common.c:238-261 | each unfinished verify context holds the concatenation of all handshake messages sent and accepted, without HelloRequest, alerts or ChangeCipherSpec |
| `Client.Handshake` | crypto/tls/tlsv1_client.c:163-282 | keeps the invariant; incomplete input is kept as exactly the unconsumed end, anything else uses the input up, and a pending alert fails the connection and is sent; a single record with a single acceptable message does what the message does, and its answer is the flight that is due |
| `Client.IncompleteIs` | crypto/tls/tlsv1_client.c:206-231 | what is kept is shorter than a header or than the record its header announces |
| `Client.Shutdown` | crypto/tls/tlsv1_client.c:700-720 | the connection starts over with null ciphers and an empty history |
| `ClientRead.ProcessHandshake` | crypto/tls/tlsv1_client_read.c:1483-1561 | one message: alerts fail the connection, HelloRequest changes nothing, a message is accepted (while no alert is pending and outside AckFinished exactly) when its state, form and contents are the stated ones, and then it leads where the table says and joins the transcript |
| `ClientRead.Dispatch` | crypto/tls/tlsv1_client_read.c:1515-1555 | the switch over the state: what is accepted, and what it does to the connection |
| `ClientRead.DispatchMiddle` | crypto/tls/tlsv1_client_read.c:1519-1536 | the four states before the client's key exchange accept the message they wait for or a later one, with the contents it asks for |
| `ClientRead.DispatchClosing` | crypto/tls/tlsv1_client_read.c:1537-1545 | while no alert is pending exactly ChangeCipherSpec (with a ticket also any message of a full handshake) and then a Finished whose verify_data is the PRF of exactly the messages so far |
| `ClientRead.ProcessServerHello` | crypto/tls/tlsv1_client_read.c:78-276 | accepted exactly for an allowed version, an offered and known suite (the old one on resumption), null compression and well-formed extensions; the fields taken, and whether a session or ticket leads to ChangeCipherSpec or else to Certificate |
| `ClientRead.TakeSession` | crypto/tls/tlsv1_client_read.c:150-167 | the offered session means resumption, any other is remembered |
| `ClientRead.TakeSuite` | crypto/tls/tlsv1_client_read.c:169-203 | the suite was offered, and a resumed session keeps its own |
| `ClientRead.TakeVersion` | crypto/tls/tlsv1_client_read.c:123-148 | only versions that are allowed, and the server random |
| `ClientRead.ProcessCertificate` | crypto/tls/tlsv1_client_read.c:354-637 | exactly which messages are accepted in its place, where each leads, and what an accepted list must be |
| `ClientRead.WalkCertificates` | crypto/tls/tlsv1_client_read.c:446-507 | succeeds exactly when the list is well formed, every certificate parses and the first has a key, which becomes the server's |
| `ClientRead.ProcessServerKeyExchange` | crypto/tls/tlsv1_client_read.c:1021-1115 | accepted exactly for ephemeral suites with well-formed parameters, signed if the suite is a DHE_RSA one (written out in ClientRead.AcceptableIs); the parameters are in place and in the history |
| `ClientRead.ProcessDiffieHellman` | crypto/tls/tlsv1_client_read.c:664-795 | succeeds exactly for well-formed parameters with, for DHE_RSA, a signature over both randoms and the octets of the parameters that is right under the server's key, in TLS 1.2 one that names SHA-256, SHA-384 or SHA-512 and RSA |
| `DhParameters.ParamsIff` | crypto/tls/tlsv1_client_read.c:664-732 | parameters are accepted exactly when prime, generator and public value stand there with their lengths, none of them empty, the prime at least 2^767 and the generator not 0 or 1 in one octet |
| `DhParameters.BitLength` | crypto/tls/tlsv1_client_read.c:640-661 | the bit count against the powers of two |
| `ClientRead.AcceptableIs` | crypto/tls/tlsv1_client_read.c:354-1245 | the contents each message before the client's key exchange must have, written out |
| `ClientRead.CertificateListIff` | crypto/tls/tlsv1_client_read.c:434-475 | a certificate list is accepted as exactly the certificates it was written from |
| `ClientRead.HelloGoodIs` | crypto/tls/tlsv1_client_read.c:78-276 | the accepted ServerHello bodies, field by field |
| `ClientRead.MessageGoodIs` | crypto/tls/tlsv1_client_read.c:1515-1555 | what each state accepts, written out |
| `ClientRead.MovesOnIs` | crypto/tls/tlsv1_client_read.c:78-1449 | what each accepted message changes, field by field |
| `ClientRead.ProcessCertificateRequest` | crypto/tls/tlsv1_client_read.c:1118-1179 | a request is remembered; ServerHelloDone may come instead |
| `ClientRead.ProcessServerHelloDone` | crypto/tls/tlsv1_client_read.c:1182-1245 | only ServerHelloDone |
| `ClientRead.ProcessServerChangeCipherSpec` | crypto/tls/tlsv1_client_read.c:1248-1316 | exactly what is accepted: a ChangeCipherSpec switches the read cipher, and with a ticket another message falls back to the full handshake |
| `ClientRead.TicketFallback` | crypto/tls/tlsv1_client_read.c:1258-1279 | the ticket is given up |
| `ClientRead.CheckFinished` | crypto/tls/tlsv1_client_read.c:1380-1446 | while no alert is pending succeeds exactly when the received verify_data is the PRF of the messages so far |
| `ClientRead.ProcessServerFinished` | crypto/tls/tlsv1_client_read.c:1319-1449 | while no alert is pending exactly a Finished of twelve octets that is the PRF of the messages so far |
| `ClientWrite.SendClientHello` | crypto/tls/tlsv1_client_write.c:45-257 | always succeeds, the reserved room being enough; the first handshake message of the history is the ClientHello with the offered suites and session |
| `ClientWrite.SendClientKeyExchange` | crypto/tls/tlsv1_client_write.c:868-908 | certificate if requested, key exchange, signature if there is a key, ChangeCipherSpec and Finished, in this order and once each; master secret and key block are the PRF of the pre-master secret and of the master secret with both randoms in their orders, and the flight ends with the first record under the new keys |
| `ClientWrite.WriteKeyFlight` | crypto/tls/tlsv1_client_write.c:868-908 | the messages before ChangeCipherSpec: which are sent, and in what order |
| `ClientWrite.WriteCertificate` | crypto/tls/tlsv1_client_write.c:260-341 | the whole chain in one message that joins the transcript |
| `ClientWrite.WriteCertificateVerify` | crypto/tls/tlsv1_client_write.c:572-741 | the signature covers the digest of exactly the messages so far |
| `ClientWrite.KeyShare` | crypto/tls/tlsv1_client_write.c:344-511 | the body of the ClientKeyExchange is the public value, or the pre-master secret under the server's key; the master secret is the PRF of what both sides then have, and the record layer holds the key block of that master secret |
| `ClientWrite.KeyXDh` | crypto/tls/tlsv1_client_write.c:344-463 | succeeds exactly when the parameters give a share that fits; the keys come from the shared value of the parameters that were there, which are gone afterwards |
| `ClientWrite.KeyXRsa` | crypto/tls/tlsv1_client_write.c:467-511 | succeeds exactly when the server's key encrypts the pre-master secret of offered version and random octets, and the keys come from that |
| `ClientWrite.WriteKeyExchange` | crypto/tls/tlsv1_client_write.c:514-569 | succeeds exactly when there is such a share and room for it, sends it, and leaves the keys that come from it |
| `ClientWrite.WriteFinished` | crypto/tls/tlsv1_client_write.c:777-865 | the Finished is the PRF of exactly the messages before it, and no second one can be sent |
| `ClientWrite.WriteChangeCipherSpec` | crypto/tls/tlsv1_client_write.c:744-774 | the record goes out under the old cipher and the write cipher changes |
| `ClientWrite.SendChangeCipherSpec` | crypto/tls/tlsv1_client_write.c:911-940 | the last flight of a resumed handshake |
| `ClientWrite.HandshakeWrite` | crypto/tls/tlsv1_client_write.c:943-966 | which states reply, with what and where that leads, and that a second Finished fails; the other states do nothing |
| `ClientWrite.DeriveKeys` | crypto/tls/tlsv1_client.c:75-148 | master secret = PRF(pre-master secret, 'master secret', client random + server random) in 48 octets, and the fields hold the parts of PRF(master secret, 'key expansion', server random + client random) |
| `ClientWrite.ShareIs` | crypto/tls/tlsv1_client_write.c:344-511 | what is sent for the key exchange and what the secrets come from, by suite |
| `ClientWrite.HelloIs` | crypto/tls/tlsv1_client_write.c:45-257 | the ClientHello field by field, extensions included |
| `ClientWrite.SignatureMessageIs` | crypto/tls/tlsv1_client_write.c:572-741 | what is signed and how it is sent, in TLS 1.2 and before |
| `ClientWrite.FlightIs` | crypto/tls/tlsv1_client_write.c:868-908 | the second flight event by event |
| `ClientWrite.RepliedIs` | crypto/tls/tlsv1_client_write.c:911-966 | the other replies event by event |
| `TlsClients.VerifyHash.Add` | crypto/tls/tlsv1_common.c:238-261 | each of the nine contexts that is still there gets the message, and none comes or goes |
| `TlsClients.VerifyHash.Init` | crypto/tls/tlsv1_common.c:206-235 | all nine contexts present and empty |
| `TlsClients.VerifyHash.FinishClient` | crypto/tls/tlsv1_client_write.c:789-829 | the digest of the transcript for the version, and the contexts are used up |
| `TlsClients.VerifyHash.FinishServer` | crypto/tls/tlsv1_client_read.c:1380-1420 | the same for the server's Finished, whose contexts are gone then |
| `TwoEnds.Session` | crypto/tls/tlsv1_client.c:163-433 | a whole session of a new connection with a well-behaved server that has a record layer of its own: full handshake, a question that the server decodes with the reading state the handshake left, and an answer that the application gets |
| `TwoEnds.FullHandshake` | crypto/tls/tlsv1_client.c:163-282 | record by record through tlsv1_client_handshake, ServerHello, good certificates, ServerHelloDone, ChangeCipherSpec and Finished bring the connection from ClientHello to established with an RSA suite, and then each end reads with what the other writes with |
| `TwoEnds.AbbreviatedHandshake` | crypto/tls/tlsv1_client.c:163-282 | the same with the session or the ticket that was offered: ServerHello, ChangeCipherSpec and Finished |
| `TwoEnds.Upload` | crypto/tls/tlsv1_client.c:297-315 | application data up to 17403 octets sent over such a connection decodes to itself at the server, and the ends stay in step |
| `TwoEnds.Download` | crypto/tls/tlsv1_client.c:330-433 | and what the server sends arrives at the application |
| `TwoEnds.Hand` | crypto/tls/tlsv1_client.c:194-255 | a record of the server with one acceptable message does through the entry point what the message does |
| `TwoEnds.Switch` | crypto/tls/tlsv1_client_read.c:1248-1316 | behind the server's ChangeCipherSpec the client reads with what the server, having expanded its own copy of the secrets, then writes with |
| `RecordLayers.EndsMeet` | crypto/tls/tlsv1_client.c:116-145 | two record layers that dealt one key block, each from its side, have mirrored states when they switch; from TLS 1.1 on their initialization vectors may differ (section 6.3 of RFC 5246) |
| `Honest.Abbreviated` | crypto/tls/tlsv1_client_read.c:1483-1561 | the messages of an abbreviated handshake handed over one by one, without records: the connection becomes established without an alert |
| `Honest.Complete` | crypto/tls/tlsv1_client_read.c:1483-1561 | the same for those of a full handshake with an RSA suite |
| `Honest.FallsBack` | crypto/tls/tlsv1_client_read.c:1258-1279 | a server that gives the ticket up and goes on with its certificates gets the connection established exactly if that does not count as resumed; otherwise an alert is pending and it never will be |
| `Honest.ServerFinishes` | crypto/tls/tlsv1_client_read.c:1319-1449 | the Finished a server computes from the same messages and secret is the accepted one |
| `TlsClients.TlsClient.SendRecord` | crypto/tls/tlsv1_record.c:150-260 | what enters the history is what the record carries |
| `Gf128.MulIsRemainder` | crypto/aes-gcm.c:65-93 | the block product is the remainder of the carry-less product by x^128 + x^7 + x^2 + x + 1, and the only one (section 6.3 of NIST SP 800-38D) |
| `Gf128.MulAssoc` | crypto/aes-gcm.c:65-93 | the product is associative |
| `Gf128.MulComm` | crypto/aes-gcm.c:65-93 | and commutative |
| `Gf128.MulBilinear` | crypto/aes-gcm.c:65-93 | and bilinear |
| `GfBlocks.GfMult` | crypto/aes-gcm.c:65-93 | the two nested loops compute the product |
| `GfBlocks.ShiftRightBlock` | crypto/aes-gcm.c:36-61 | the four word shifts are one shift of 128 bits |
| `GfBlocks.NextMultiple` | crypto/aes-gcm.c:82-90 | multiplication by x with reduction |
| `GfBlocks.ElemBits` | crypto/aes-gcm.c:65-93 | the coefficient of x^i is bit 7 - i modulo 8 of octet i / 8 |
| `Gcm.GhashIsPolynomial` | crypto/aes-gcm.c:103-140 | GHASH from any start is a polynomial in H (section 6.4) |
| `Gcm.AesGcmGhash` | crypto/aes-gcm.c:229-248 | the polynomial over the padded additional data, the padded ciphertext and the length block, for all lengths |
| `Gcm.BlocksAt` | crypto/aes-gcm.c:109-137 | where each octet goes, and the zero padding |
| `Gcm.GhashUpdate` | crypto/aes-gcm.c:103-140 | the loop over full blocks and the padded last one |
| `Gcm.LengthsExact` | crypto/aes-gcm.c:243-245 | with 32-bit sizes the length block is the standard's exactly below 2^29 octets |
| `Gcm.AesGctr` | crypto/aes-gcm.c:143-172 | octet k of the output is octet k of the input masked with the encryption of the counter block whose last 32 bits are k / 16 more than those of the first, modulo 2^32; the rest of the buffer is untouched |
| `Gcm.GctrTwice` | crypto/aes-gcm.c:143-172 | applied twice it gives the input back |
| `Gcm.GctrAt` | crypto/aes-gcm.c:143-172 | octet by octet: counter block k / 16 on from the first, counted in the last 32 bits |
| `Gcm.IncCounts` | crypto/aes-gcm.c:16-22 | the step keeps 96 bits and counts modulo 2^32 |
| `Gcm.SealIs` | crypto/aes-gcm.c:254-282 | ciphertext and tag octet by octet, for any initialization vector: masks from the second counter block on, and the GHASH of data, ciphertext and sizes masked with the first |
| `Gcm.OpenIs` | crypto/aes-gcm.c:288-319 | the same for opening, and which tag is right |
| `Gcm.SealOpen` | crypto/aes-gcm.c:254-319 | what was sealed opens to the plaintext, and whatever opens was sealed from it |
| `Gcm.AesGcmAe` | crypto/aes-gcm.c:254-282 | ciphertext and tag; with a 12-octet vector octet k is masked with the encryption of the vector and the counter 2 + k / 16 (for any vector and for the tag see Gcm.SealIs) |
| `Gcm.AesGcmAd` | crypto/aes-gcm.c:288-319 | plaintext, octet by octet under the same masks, and success exactly for the right tag (Gcm.OpenIs) |
| `Gcm.PrepareJ0` | crypto/aes-gcm.c:192-212 | the first counter block for both kinds of initialization vector |
| `KeyWrap.UnwrapIff` | crypto/aes-unwrap.c:26-80 | unwrapping accepts exactly the wrapped keys and returns the key; re-wrapping what it accepts gives the ciphertext (sections 2.2.1 and 2.2.2 of RFC 3394) |
| `KeyWrap.IndexedIsShifting` | crypto/aes-wrap.c:51-66 | the indexed form equals the shifting form of section 2.2.1 |
| `KeyWrap.WrappedIs` | crypto/aes-wrap.c:26-76 | the wrapped key step by step over six rounds: register, counter octets and initial value written out |
| `KeyWrap.RoundsUndone` | crypto/aes-unwrap.c:50-66 | the six rounds backwards undo the six rounds |
| `KeyWrap.RoundsRedone` | crypto/aes-wrap.c:51-66 | and the other way round |
| `KeyWrap.AesWrap` | crypto/aes-wrap.c:26-76 | the in-place registers hold the wrapped key at the end |
| `KeyWrap.AesUnwrap` | crypto/aes-unwrap.c:26-80 | the in-place registers hold the unwrapped key, and success means the initial value |
| `Sha1.Vector` | crypto/sha1-internal.c:31-44 | any split of a message gives the digest of the whole padded message (section 5.1.1 of FIPS 180-4, octets as in BlockHash.ShaDigestIs), as long as each chunk and the octets pending before it fit 32 bits |
| `Sha1.Context.Update` | crypto/sha1-internal.c:248-273 | the context of the message extended by the data, for any size |
| `Sha1.Context.Count` | crypto/sha1-internal.c:257-259 | the two-word bit counter with its carry |
| `Sha1.Context.Final` | crypto/sha1-internal.c:278-304 | the octet-wise padding stops, and the digest is that of the padded message |
| `Md5.Vector` | crypto/md5-internal.c:31-44 | the same for MD5 (section 3 of RFC 1321), the octets as in BlockHash.MdDigestIs |
| `Md5.Context.Update` | crypto/md5-internal.c:102-144 | the context of the message extended by the data |
| `Md5.Context.Count` | crypto/md5-internal.c:108-111 | the carry seen by comparison with the old low word |
| `Md5.Context.Final` | crypto/md5-internal.c:150-189 | one or two blocks of padding |
| `Sha256.Vector` | crypto/sha256-internal.c:25-41 | the same for SHA-256 (BlockHash.ShaDigestIs); the error exits are never taken |
| `Sha256.State.Process` | crypto/sha256-internal.c:148-179 | whole blocks directly, the rest through the buffer |
| `Sha256.State.Pad` | crypto/sha256-internal.c:198-216 | zeros up to the length field, with a compression in between when the block is full |
| `Sha256.State.Done` | crypto/sha256-internal.c:188-227 | the digest of the padded message |
| `BlockHash.Counter` | crypto/sha1-internal.c:257-259 | the counter counts bits modulo 2^64 |
| `BlockHash.ShaDigestIs` | crypto/sha1-internal.c:278-304 | the digest from the message to its octets: padding, length field most significant octet first, the states between the blocks, and octet 4 i + k as bits 24 - 8 k on of word i |
| `BlockHash.MdDigestIs` | crypto/md5-internal.c:150-189 | the same with least significant octets first |
| `BlockHash.FillLeast` | crypto/sha1-internal.c:289-291 | the fill is the smallest that leaves room for the length |
| `BlockHash.PaddingInTwo` | crypto/md5-internal.c:167-185 | padding that needs a second block |
| `BlockHash.PaddingInBlock` | crypto/md5-internal.c:175-185 | padding that fits |
| `BlockHash.Filled` | crypto/sha256-internal.c:169-174 | octets that fill the block step the chain |
| `Der.ReprintIff` | crypto/tls/asn1.c:171-273 | an accepted header with a low tag is the printed one exactly when its tag is in short form; the long form of a low tag is accepted in the private class only |
| `Der.ParsedIff` | crypto/tls/asn1.c:171-273 | with a tag in short form a header is accepted exactly when it is the printed one, its contents are there and valid (sections 8.1.3 and 10.1 of X.690) |
| `Der.HeaderRoundTrip` | crypto/tls/asn1.c:582-587 | a printed header in front of its contents is parsed as it was printed |
| `Der.LengthIff` | crypto/tls/asn1.c:521-538 | the length octets are the only way to write a length that the parser accepts |
| `Der.HeaderIs` | crypto/tls/asn1.c:521-587 | the printed octets by the numbers they stand for |
| `Der.LongParsedIff` | crypto/tls/asn1.c:171-273 | with a long tag a header is accepted exactly when the tag has up to four octets, no empty group in front and, outside the private class, no short form, and length and contents are in order |
| `Der.LongTagIs` | crypto/tls/asn1.c:188-217 | the value of a long tag, and when it is accepted |
| `Der.ValidIs` | crypto/tls/asn1.c:106-168 | which universal types take which contents and forms |
| `Der.PrivateTagTwice` | crypto/tls/asn1.c:211-217 | long tags are not canonical in the private class: an input and its short form |
| `Der.GetNext` | crypto/tls/asn1.c:171-273 | the parser with its loops and 32-bit variables computes the specification |
| `Der.ReadLength` | crypto/tls/asn1.c:221-259 | the length octets |
| `Der.ReadLongTag` | crypto/tls/asn1.c:188-217 | the octets of a long tag |
| `Oid.OidRoundTrip` | crypto/tls/asn1.c:336-350 | an identifier of 2 to 20 arcs survives printing and parsing exactly when its first two arcs are allowed ones and fit one octet below 128 (section 8.19) |
| `Oid.BodyIff` | crypto/tls/asn1.c:549-579 | the same for the contents alone |
| `Oid.BodySize` | crypto/tls/asn1.c:549-579 | the body never outgrows the one-octet length |
| `Oid.OidIs` | crypto/tls/asn1.c:549-579 | header, first octet and the other arcs of a printed identifier |
| `Oid.ArcIs` | crypto/tls/asn1.c:560-576 | an arc in base 128, most significant group first and no empty one in front |
| `Oid.ValuesAre` | crypto/tls/asn1.c:303-311 | seven bits an octet into 32 bits |
| `Oid.ParsedOidIs` | crypto/tls/asn1.c:313-330 | fewer than 20 values, and two arcs out of the first |
| `Oid.ReprintIff` | crypto/tls/asn1.c:292-333 | an accepted body prints as itself exactly when no value starts with an empty group or outgrows 32 bits and the first is one octet |
| `Oid.NotCanonical` | crypto/tls/asn1.c:306-311 | an accepted body that does not |
| `Oid.ParseOid` | crypto/tls/asn1.c:292-333 | the two loops with the arc limit |
| `Oid.PutOid` | crypto/tls/asn1.c:549-579 | the printed octets with the length filled in last |
| `Oid.GetOid` | crypto/tls/asn1.c:336-350 | header and contents |
| `Base64.AllEncoders` | crypto/utils/base64.c:170-208 | decoding returns the input for all three encoders and every non-empty input (sections 4 and 5 of RFC 4648) |
| `Base64.RoundTrip` | crypto/utils/base64.c:26-155 | the same for any alphabet, padding and line feeds |
| `Base64.Fits` | crypto/utils/base64.c:34-43 | text and terminator fit what is allocated |
| `Base64.FitIsTight` | crypto/utils/base64.c:34-43 | for one octet with line feeds nothing is left over |
| `Base64.TextSize` | crypto/utils/base64.c:49-84 | the exact number of characters for padded and unpadded text, with and without line feeds |
| `Base64.SymbolAt` | crypto/utils/base64.c:49-84 | symbol k of the text stands for bits 6 k to 6 k + 5 of the input, and where the padding is |
| `Base64.LinesAre` | crypto/utils/base64.c:55-84 | with line feeds the same symbols are there, 72 to a line, with a line feed behind each line and at the end |
| `Base64.TablesAre` | crypto/utils/base64.c:16-19 | both alphabets |
| `Base64.DecodedIs` | crypto/utils/base64.c:102-131 | what counts of a text, filled up to groups of four |
| `Base64.GroupIs` | crypto/utils/base64.c:125-150 | the octets of a group, and what padding in it does |
| `Base64.Encode` | crypto/utils/base64.c:26-86 | the text, a terminating zero, and refusal of sizes that could overflow |
| `Base64.Decode` | crypto/utils/base64.c:89-155 | the decoder computes the specification, padding and stray characters included, for any text |
| `Base64.GroupComplete` | crypto/utils/base64.c:133-149 | a completed group and what its padding means |

## Left out

- Round functions and constant tables of AES, DES, SHA-1, SHA-256 and MD5: block ciphers and compression are arbitrary functions.
- Allocation failure, wiping and freeing, the yield inside the exponentiation, and debug output.
- Random sources: what they deliver is a parameter. X.509 parsing and chain validation, RSA encryption and signing inside the handshake, Diffie-Hellman arithmetic, HMAC and the PRF are arbitrary functions of the environment; OCSP and CertificateStatus messages are not modelled.
- Digit buffers: `dp` is a sequence field that the methods reassign digit by digit, and each number has a buffer of its own; aliasing between numbers is covered where a destination is also a source, aliasing of parts of buffers is not.
- RecordLayers.RecordLayer.SetCipherSuite: the single-DES suites and the single-DES branch of the cipher wrapper are not modelled; such suites count as unknown.
- mp_invmod, mp_div_2, mp_reduce_2k and the negative exponent branch, which the builds do not compile or reach.
- RecordLayers.RecordLayer.Send: the payload is passed as a value, so it cannot overlap the output buffer; the handshake's overlapping sends under the null cipher are not modelled as overlaps.
- Cipher.CryptoCipher.Encrypt: one buffer is both plaintext and ciphertext, as the record layer calls it.
- Pkcs1.PrivateKeyDecrypt: the loop over the padding tests its bound before it reads, the source after.
- Record.Incremented: inc_byte_array is declared but its code is not part of this model; it is taken as the big-endian increment.
- Client.Run: flags, credentials, suites and callbacks are fixed when the connection is made.
- TwoEnds.FullHandshake: full handshakes with ephemeral suites or a client certificate are not shown to complete, each record carries one message, and of the server only its record layer and the messages it sends are there.
- Honest.Abbreviated: the messages are handed over without records; TwoEnds.AbbreviatedHandshake has them in records.
- Honest.Complete: the same, see TwoEnds.FullHandshake.
- Honest.FallsBack: the messages are handed over without records.
- Honest.LeftOver: the messages are handed over without records.
- Honest.TwoConnections: the messages are handed over without records.
- Gcm.AesGctr: input and output are separate buffers; in place the source would encrypt over its input.
- KeyWrap.AesWrap: the plaintext is passed as a value.
- Sha1.Context.Update: the length of the data and the pending octets must fit 32 bits together, which the source needs for its index arithmetic.
- Sha1.Vector: the same for each chunk.
- Der.GetNext: the buffer is shorter than 2^32 octets, as sizes are in the build modelled.
- Other readers and writers of DER built on these, PKCS #5, #8 and #12, key import, pkcs1_v15_sig_ver, the server side of TLS, and the ESP8266 sources: these parts of the repository are outside the model.
