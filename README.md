# PubKeyFinder in Dafny

PubKeyFinder reads a directory of PSN tickets, each signed with ECDSA. For every ticket it recovers
the public keys that could have produced the signature. It then reports every key that was recovered
for more than one ticket: that key is the issuer's signing key.

This project models the core of the tool and proves properties of it.

- **Modular arithmetic** (`integer_functions.dfy`, with helpers in `arith.dfy`):
  - `jacobi` computes the Jacobi symbol by reciprocity, using the eight-entry table for the (2|b)
    factor.
  - `Ressol` computes the Tonelli–Shanks modular square root.
  - Each loop of the C# code is an imperative method. Each method is proved equal to a recursive
    specification function, and the promised properties are proved about that function: the range,
    the zero cases, and that the returned root squares to the argument.
- **Points** (`points.dfy`): curve points form an abstract group, with an addition function and
  laws stated as a predicate. `MultiplyTwo` (Shamir's trick) is a loop proved to compute j·P + k·Q.
- **Key recovery** (`ecdsa_finder.dfy`): recovery of the public key from an ECDSA signature, after
  section 4.1.6 of SEC 1 version 2.0. It covers:
  - decompressing the point R from its x coordinate;
  - truncating the hash;
  - the coefficients s1 and s2;
  - the four-candidate loop, filtered by an abstract verifier.

  It proves that the signer's own key is the candidate for the right recovery id.
- **Ticket decoding** (`ticket_reader.dfy`, `np_ticket.dfy`):
  - A `TicketReader` class is a cursor over the ticket bytes. Each of its reads is specified by a
    function of the data and the start position.
  - `NpTicket` is a class whose fields are filled in by `FromBytes`, `Read21Ticket` and
    `Read30Ticket`.
  - The signed message, the hash and the curve are chosen by the length of the signature.
- **The driver** (`program.dfy`):
  - the per-name curve cache;
  - the signature trimming retry in `ParseSignature`;
  - the rule that skips a record;
  - the loop over all tickets;
  - the final duplicate-key report.

Library code is a parameter of the model (the `Env` datatype in `program.dfy`, the `Domain`
datatype in `ecdsa_finder.dfy`): SHA-1, SHA-224, the DER parser, the named-curve table, point
addition and validation, and ECDSA verification. Console output is not modelled.

A BinaryReader read past the end of the data throws. In the model it is an `EndOfData` failure.
PubKeyFinder does not catch that exception in the ticket loop, so the model's run stops with that
error (`Program.RunError`).

## Model

| member | source | states |
|---|---|---|
| IntegerFunctions.JacobiTable | PubKeyFinder/IntegerFunctions.cs:16 | the table entry for an odd residue modulo 8 is 1 or -1, and for an even residue it is 0 |
| IntegerFunctions.HalvingStep | PubKeyFinder/IntegerFunctions.cs:93-104 | removing one factor 2 from a, and accounting for it by the (2\|b) factor on odd counts, keeps k · (a\|b) unchanged |
| IntegerFunctions.SwapStep | PubKeyFinder/IntegerFunctions.cs:106-117 | swapping odd a < b keeps the symbol, with the sign flipped exactly when both are 3 mod 4 (quadratic reciprocity) |
| IntegerFunctions.Jacobi | PubKeyFinder/IntegerFunctions.cs:35-121 | the loops (sign handling, halving of b, the main halve/swap/subtract loop) compute the Jacobi symbol (A\|B), defined by reciprocity recursion |
| IntegerFunctions.JacobiOddRange | PubKeyFinder/IntegerFunctions.cs:90-120 | the symbol of odd b is -1, 0 or 1 |
| IntegerFunctions.JacobiOddZero | PubKeyFinder/IntegerFunctions.cs:90-120 | for odd b the symbol is 0 exactly when a and b share a divisor of at least 2 |
| IntegerFunctions.JacobiRange | PubKeyFinder/IntegerFunctions.cs:35-121 | jacobi always returns -1, 0 or 1 |
| IntegerFunctions.JacobiZeroIffCommonFactor | PubKeyFinder/IntegerFunctions.cs:22 | (A\|B) = 0 if and only if \|A\| and \|B\| have a common divisor greater than 1 |
| IntegerFunctions.JacobiTrivialCases | PubKeyFinder/IntegerFunctions.cs:42-52 | for B = 0 the result is 1 exactly when \|A\| = 1, otherwise 0; if A and B are both even the result is 0 |
| IntegerFunctions.JacobiOfModulus | PubKeyFinder/IntegerFunctions.cs:197-202 | (p\|p) = 0 for p ≥ 2, so the non-residue scan stops at p at the latest |
| IntegerFunctions.JacobiPeriodicUpToSign | PubKeyFinder/IntegerFunctions.cs:27 | for odd b > 0 and a ≡ c (mod b), (a\|b) and (c\|b) are equal up to sign; in particular they are 0 together |
| IntegerFunctions.JacobiMinusOne | PubKeyFinder/IntegerFunctions.cs:23-24 | for odd b > 0, (1\|b) = 1, and (-1\|b) is 1 when b ≡ 1 (mod 4) and -1 when b ≡ 3 (mod 4) |
| IntegerFunctions.JacobiTwo | PubKeyFinder/IntegerFunctions.cs:28-29 | for odd b > 0, (2\|b) is 1 when b ≡ 1 or 7 (mod 8) and -1 when b ≡ 3 or 5 (mod 8), as the table at line 16 gives; the comment at line 29 writes 1 for the second case |
| IntegerFunctions.TwoAdicSplit | PubKeyFinder/IntegerFunctions.cs:172-182 | the halving loop splits p - 1 as 2^s times an odd number, so p - 1 = 2^s (2k + 1) |
| IntegerFunctions.SquaringsToOne | PubKeyFinder/IntegerFunctions.cs:217-222 | the squaring loop's count is the least number of squarings modulo p that reach 1, or there is none within the bound |
| IntegerFunctions.FirstNonResidue | PubKeyFinder/IntegerFunctions.cs:197-202 | the scan from z = 2 yields the first z ≤ p whose symbol over p is not 1 |
| IntegerFunctions.Ressol | PubKeyFinder/IntegerFunctions.cs:133-243 | the method, with its special cases, fast path, 2-adic split, scan and state loop, computes the Tonelli–Shanks outcome TonelliShanks(a, p) |
| IntegerFunctions.RessolGeneral | PubKeyFinder/IntegerFunctions.cs:167-243 | past the special cases and the fast path, splits p - 1 and runs the start and the iteration, giving the general-path outcome GeneralPath(a, p) |
| IntegerFunctions.SplitTwos | PubKeyFinder/IntegerFunctions.cs:172-182 | the halving loop returns s, the number of factors 2 in p - 1, and k = (odd part - 1) / 2 |
| IntegerFunctions.FindNonResidue | PubKeyFinder/IntegerFunctions.cs:196-202 | the scan from z = 2 stops at the first z whose symbol (z\|p) is not 1 |
| IntegerFunctions.StartAndIterate | PubKeyFinder/IntegerFunctions.cs:184-243 | r = a^(k+1) and n = a^(2k+1) mod p; returns r when n = 1, otherwise iterates from c = z^(2k+1) for the first non-residue z, giving GeneralFrom(a, p, s, k) |
| IntegerFunctions.ShanksIterate | PubKeyFinder/IntegerFunctions.cs:210-240 | the iteration over (r, n, c, s) yields the outcome the recursive loop function defines, including failure when t = 0 |
| IntegerFunctions.StepKeepsSquare | PubKeyFinder/IntegerFunctions.cs:236-239 | one update of r, c and n preserves r² ≡ a·n (mod p) |
| IntegerFunctions.InitialSquare | PubKeyFinder/IntegerFunctions.cs:185-189 | the initial r = a^(k+1) and n = a^(2k+1) satisfy r² ≡ a·n (mod p) |
| IntegerFunctions.LoopRootSquares | PubKeyFinder/IntegerFunctions.cs:210-242 | a root returned by the loop squares to a, or to 0 when n reached 0 (modulo p) |
| IntegerFunctions.LoopRootRange | PubKeyFinder/IntegerFunctions.cs:210-242 | a root returned by the loop lies in [0, p) |
| IntegerFunctions.GeneralFromRange | PubKeyFinder/IntegerFunctions.cs:184-242 | for 0 ≤ a < p, a root returned by the general path lies in [0, p) |
| IntegerFunctions.GeneralFromSquares | PubKeyFinder/IntegerFunctions.cs:184-242 | for 0 ≤ a < p and any modulus, a root returned by the general path squares to a, or to 0, modulo p |
| IntegerFunctions.TonelliShanksRange | PubKeyFinder/IntegerFunctions.cs:133-243 | for -p ≤ a < p, a returned root lies in [0, p) |
| IntegerFunctions.TonelliShanksSquares | PubKeyFinder/IntegerFunctions.cs:137-150 | for any modulus, a root returned on the trivial or general path squares to a (after adding p once to a negative a), or to 0 |
| IntegerFunctions.FastPathSquares | PubKeyFinder/IntegerFunctions.cs:153-165 | for p ≡ 3 (mod 4) and a with a^((p-1)/2) ≡ 1, the fast-path root a^((p+1)/4) squares to a modulo p |
| IntegerFunctions.NonZeroStep | PubKeyFinder/IntegerFunctions.cs:236-239 | for prime p, nonzero n and c stay nonzero through one iteration |
| IntegerFunctions.NonZeroStart | PubKeyFinder/IntegerFunctions.cs:185-207 | for prime p and nonzero a, the initial n and c are nonzero |
| IntegerFunctions.LoopRootSquaresPrime | PubKeyFinder/IntegerFunctions.cs:210-242 | for prime p, a root returned by the loop squares to a modulo p |
| IntegerFunctions.GeneralFromSquaresPrime | PubKeyFinder/IntegerFunctions.cs:184-242 | for prime p, 0 < a < p and a non-residue below p, a root returned by the general path squares to a modulo p |
| IntegerFunctions.TonelliShanksSquaresPrime | PubKeyFinder/IntegerFunctions.cs:129-131 | for prime p with a non-residue below it, a root returned on the trivial or general path squares to a modulo p |
| Points.ShamirLoopStep | PubKeyFinder/EcdsaFinder.cs:121-132 | doubling r and adding the addend for bit i keeps r = (j >> i)·P + (k >> i)·Q |
| Points.MultiplyTwo | PubKeyFinder/EcdsaFinder.cs:114-136 | the bit-scanning loop returns j·P + k·Q (the identity when j = k = 0) |
| EcdsaFinder.PointFromX | PubKeyFinder/EcdsaFinder.cs:100-112 | computes the decompressed point: x, the curve right-hand side modulo p, the root and the parity fix-up |
| EcdsaFinder.DecompressShape | PubKeyFinder/EcdsaFinder.cs:103-111 | a point it produces is affine, has the given x, coordinates in [0, p), and y odd exactly when isOdd |
| EcdsaFinder.DecompressFailsOnlyAtZero | PubKeyFinder/EcdsaFinder.cs:107-111 | when the square root exists, decompression fails exactly when the root is 0 and an odd y was asked for |
| EcdsaFinder.DecompressOnCurve | PubKeyFinder/EcdsaFinder.cs:103-111 | when the root squares to the right-hand side, the point satisfies y² ≡ x³ + a x + b (mod p) |
| EcdsaFinder.TruncateHashBits | PubKeyFinder/EcdsaFinder.cs:88-92 | after truncation z has min(bitlen z, bitlen n) bits, so at most bitlen n, and is unchanged when it was short enough |
| EcdsaFinder.TruncationAgreesWithSec1 | PubKeyFinder/EcdsaFinder.cs:88-92 | the code's truncation by the bit length of z equals SEC 1's truncation by the hash's byte width when the hash is short or its top bit is set |
| EcdsaFinder.CoefficientsCongruent | PubKeyFinder/EcdsaFinder.cs:94-95 | s1 and s2 lie in [0, n) and satisfy s1·r ≡ -z and s2·r ≡ s (mod n) |
| EcdsaFinder.RecoverPubKey | PubKeyFinder/EcdsaFinder.cs:47-98 | one recovery id gives the candidate CandidateKey: rejected for r or s outside [1, n-1], otherwise s1·G + s2·R for the R selected by the id |
| EcdsaFinder.RecoverFromPoint | PubKeyFinder/EcdsaFinder.cs:81-97 | once R is found: rejected unless n·R is the identity, rejected when r has no inverse modulo n or the hash is empty, otherwise s1·G + s2·R with the hash truncated to the bit length of n |
| EcdsaFinder.RejectsOutOfRange | PubKeyFinder/EcdsaFinder.cs:56-63 | r or s outside [1, n-1] rejects every recovery id, r being checked first |
| EcdsaFinder.RecoveredFrom | PubKeyFinder/EcdsaFinder.cs:53-97 | a recovered key comes from the id's x choice (r, or r + n for bit 1), the y parity of bit 0, an R of order dividing n, and s1, s2 |
| EcdsaFinder.ScalarsCombine | PubKeyFinder/EcdsaFinder.cs:94-97 | with s·k ≡ z + r·priv, s1 + k·s2 ≡ priv (mod n) |
| EcdsaFinder.RecoveryCorrect | PubKeyFinder/EcdsaFinder.cs:94-97 | with R = k·G, s1·G + s2·R is the signer's public key priv·G |
| EcdsaFinder.RecoveredKeyIsSigners | PubKeyFinder/EcdsaFinder.cs:47-98 | when the id selects the signer's nonce point, the recovered key is the signer's key |
| EcdsaFinder.RecoverPublicKey | PubKeyFinder/EcdsaFinder.cs:19-45 | the loop over ids 0..3 returns the accepted candidates in id order |
| EcdsaFinder.AcceptedKeysSound | PubKeyFinder/EcdsaFinder.cs:21-44 | at most one key per id, each valid, not the identity, verified, and recovered by some id |
| EcdsaFinder.AcceptedKeysComplete | PubKeyFinder/EcdsaFinder.cs:21-44 | every candidate that is recovered and verifies is in the result |
| EcdsaFinder.NoKeysForInvalidSignature | PubKeyFinder/EcdsaFinder.cs:56-63 | r or s out of range gives no keys at all |
| TicketReader.TrimTrailingZeros | PubKeyFinder/Ticket/TicketReader.cs:45 | the result is a prefix of the input with no trailing zero byte, and only zero bytes were removed |
| TicketReader.TicketReader.constructor | PubKeyFinder/Ticket/TicketReader.cs:8-9 | a reader over the data, at position 0 |
| TicketReader.TicketReader.ReadByte | PubKeyFinder/Ticket/TicketReader.cs:11 | reads one byte and advances by one; fails at the end of the data |
| TicketReader.TicketReader.ReadBytes | PubKeyFinder/Ticket/TicketReader.cs:42 | returns the next count bytes, or fewer at the end of the data, and advances past them |
| TicketReader.TicketReader.ReadUInt16BE | PubKeyFinder/Ticket/TicketReader.cs:20 | the big-endian value of the next 2 bytes, or a failure at the end |
| TicketReader.TicketReader.ReadUInt32BE | PubKeyFinder/Ticket/TicketReader.cs:52 | the big-endian value of the next 4 bytes, or a failure at the end |
| TicketReader.TicketReader.ReadUInt64BE | PubKeyFinder/Ticket/TicketReader.cs:67 | the big-endian value of the next 8 bytes, or a failure at the end |
| TicketReader.TicketReader.ReadTicketVersion | PubKeyFinder/Ticket/TicketReader.cs:11 | major = high nibble of the first byte, minor = the second byte |
| TicketReader.TicketReader.ReadSectionHeader | PubKeyFinder/Ticket/TicketReader.cs:13-24 | skips one byte, then the type byte and a 16-bit big-endian length |
| TicketReader.TicketReader.ReadDataHeader | PubKeyFinder/Ticket/TicketReader.cs:26-35 | a 16-bit big-endian type and a 16-bit big-endian length |
| TicketReader.TicketReader.ReadTicketBinary | PubKeyFinder/Ticket/TicketReader.cs:37-43 | the data header, then as many payload bytes as its length says, truncated at the end of the data |
| TicketReader.TicketReader.ReadTicketString | PubKeyFinder/Ticket/TicketReader.cs:45 | a binary field with trailing zero bytes removed |
| TicketReader.TicketReader.ReadTicketUInt32 | PubKeyFinder/Ticket/TicketReader.cs:47-53 | the data header, then a 32-bit big-endian value |
| TicketReader.TicketReader.ReadTicketEmpty | PubKeyFinder/Ticket/TicketReader.cs:55-59 | only the data header |
| TicketReader.TicketReader.ReadTicketUInt64 | PubKeyFinder/Ticket/TicketReader.cs:62-68 | the data header, then a 64-bit big-endian value |
| TicketReader.FieldTypeIgnored | PubKeyFinder/Ticket/TicketReader.cs:40 | the declared data type never changes what a field read returns, because the type checks are debug-only assertions |
| TicketReader.BinaryRoundTrip | PubKeyFinder/Ticket/TicketReader.cs:37-43 | reading an encoded binary field returns its payload and stops right after it |
| TicketReader.UInt32RoundTrip | PubKeyFinder/Ticket/TicketReader.cs:47-53 | reading an encoded 32-bit field returns its value and stops right after it |
| TicketReader.UInt64RoundTrip | PubKeyFinder/Ticket/TicketReader.cs:62-68 | reading an encoded 64-bit field returns its value and stops right after it |
| NpTicket.IndexOf | PubKeyFinder/Ticket/NPTicket.cs:103 | the first position where the signature occurs in the data, or none when it occurs nowhere |
| NpTicket.NpTicket.constructor | PubKeyFinder/Ticket/NPTicket.cs:9-15 | a ticket with empty signature, message, hash, names and r = s = 0 |
| NpTicket.ReadField | PubKeyFinder/Ticket/NPTicket.cs:20-46 | one body field read with the reader method for its kind |
| NpTicket.ReadLayout | PubKeyFinder/Ticket/NPTicket.cs:49-75 | reading a field sequence in order stores the last field in the ticket's signature, or stops with the first failure |
| NpTicket.Read30Ticket | PubKeyFinder/Ticket/NPTicket.cs:18-47 | reads the 3.0 body fields in order and stores the final binary field as the signature |
| NpTicket.Read21Ticket | PubKeyFinder/Ticket/NPTicket.cs:49-76 | reads the 2.1 body fields in order and stores the final binary field as the signature |
| NpTicket.SetMessage | PubKeyFinder/Ticket/NPTicket.cs:101-114 | sets message, hash, hash name and curve from the signature length, or fails as the slice or search does |
| NpTicket.ReadHeaderAndBody | PubKeyFinder/Ticket/NPTicket.cs:80-99 | reads the version, 4 skipped bytes, the ticket length and the body header, then the 2.1 or 3.0 body fields; returns the body header with the final field stored as the signature, or the first read failure; the data is unchanged |
| NpTicket.FromBytes | PubKeyFinder/Ticket/NPTicket.cs:78-117 | a fresh ticket whose fields are the decoded ones with r = s = 0, or the decoding error |
| NpTicket.LayoutFailsOnlyAtEnd | PubKeyFinder/Ticket/NPTicket.cs:18-76 | reading a body layout can fail only by running out of data |
| NpTicket.LayoutPayloadOccurs | PubKeyFinder/Ticket/NPTicket.cs:46 | the last field read by a layout occurs somewhere in the data |
| NpTicket.SignatureAlwaysFound | PubKeyFinder/Ticket/NPTicket.cs:103 | the search for the signature never fails, because it was read from the data itself |
| NpTicket.ShortSignatureMessage | PubKeyFinder/Ticket/NPTicket.cs:101-107 | with a 56-byte signature, the message is the data before the first occurrence of the signature, and the signature follows it; the hash is SHA1 and the curve secp192r1 |
| NpTicket.OtherSignatureMessage | PubKeyFinder/Ticket/NPTicket.cs:108-114 | with any other signature, the message is the body from offset 8, its header length plus 4 bytes long, under SHA224 and secp224k1 |
| NpTicket.HashMatchesName | PubKeyFinder/Ticket/NPTicket.cs:119-127 | the stored hash is ComputeHash of the message under the stored hash name |
| NpTicket.OtherVersionsHaveNoSignature | PubKeyFinder/Ticket/NPTicket.cs:91-99 | a version other than 2.1 and 3.0 reads no body fields, leaves the signature empty and selects SHA224 |
| NpTicket.ShortDataFails | PubKeyFinder/Ticket/NPTicket.cs:83-89 | data shorter than the 12 header bytes fails with end of data |
| NpTicket.DecodedCurveIsKnown | PubKeyFinder/Ticket/NPTicket.cs:101-114 | a decoded ticket names secp192r1 or secp224k1 |
| Program.CurveCache.constructor | PubKeyFinder/Program.cs:19 | an empty cache |
| Program.CurveCache.Get | PubKeyFinder/Program.cs:42-44 | returns the named curve, caches it under its name, and builds each name at most once |
| Program.TrimToParseSpec | PubKeyFinder/Program.cs:88-101 | trimming only drops trailing bytes, at most 3, none from a signature that parses; every longer prefix failed to parse; a still-unparsable result means all tries were spent |
| Program.ParseSignature | PubKeyFinder/Program.cs:88-104 | shrinks the ticket's signature by the trimming retry and returns the parse of the result |
| Program.ProcessTicket | PubKeyFinder/Program.cs:27-59 | one ticket: decode, cached curve, trimmed signature, skip unless a two-element sequence, r and s from the integers, then the recovered keys; the cache gains the decoded ticket's curve under its name, built and logged only when the name is new, and is unchanged when decoding fails |
| Program.RecoverFromSignature | PubKeyFinder/Program.cs:47-59 | a failure when the parser threw or returned a non-sequence; no keys when it returned null or a sequence whose length is not 2; a failure when an element is not an integer; otherwise r and s stored in the ticket as the big-endian values of the two integers, and the accepted keys of recovery ids 0 to 3; r and s are left as they were on every other path |
| Program.FindKeys | PubKeyFinder/Program.cs:25-60 | the ticket loop collects every ticket's keys in order, and stops at the first error |
| Program.AbortIsFinal | PubKeyFinder/Program.cs:25-60 | once a ticket aborts the run, later tickets do not change the outcome |
| Program.KeysAppendOnly | PubKeyFinder/Program.cs:59 | the keys found so far are a prefix of the keys found later |
| Program.KeysBounded | PubKeyFinder/Program.cs:59 | with at most 4 non-identity keys per ticket, the run has at most 4 per ticket and no identity |
| Program.RecordKeysBounded | PubKeyFinder/Program.cs:49-59 | one ticket contributes at most 4 keys, none of them the identity |
| Program.SignatureKeysBounded | PubKeyFinder/Program.cs:47-59 | a parsed signature that does not abort the run yields at most 4 keys, none of them the identity |
| Program.RunKeysBounded | PubKeyFinder/Program.cs:25-60 | a run over n tickets finds at most 4n keys, none of them the identity |
| Program.TwiceAtTwoIndices | PubKeyFinder/Program.cs:69-72 | a point counted at least twice occurs at two distinct positions |
| Program.TwoIndicesCountTwice | PubKeyFinder/Program.cs:69-72 | a point at two distinct positions is counted at least twice |
| Program.ReportCollisions | PubKeyFinder/Program.cs:64-85 | reports each repeated point once, with its count (at least 2); no repeated point is missed; "all points are unique" exactly when no two entries are equal |
| Program.Run | PubKeyFinder/Program.cs:25-85 | the whole run: an error exactly when the ticket loop aborts, otherwise the duplicate report over all recovered keys: each repeated key exactly once, with its count of at least 2, and allUnique exactly when no key repeats |

## Left out

- Console output (all `Console.WriteLine` calls in `Main`, `RecoverPubKey` and elsewhere) is not
  modelled. This includes the `(3 & j) != j` warning, which only prints and never rejects.
- The command-line handling is left out: the directory listing, the file name pattern, and the
  hash and curve overrides at Program.cs lines 21-24 and 31-40. Reading files is replaced by a
  sequence of byte strings. `ComputeHash` is therefore only related to the decoded ticket, by
  `HashMatchesName`.
- `FileName` (set at Program.cs line 29) is never read by the logic and is not modelled.
- SHA-1, SHA-224, `HashAlgorithm.Create`, DER decoding, `ECNamedCurveTable`, point arithmetic,
  point validity and ECDSA verification are library code. They are parameters.
  - Points are an abstract group. Its laws (commutative, associative, identity) are a hypothesis.
    Nothing checks them against a real curve.
  - Point equality, both `nR.Equals(Infinity)` and the affine comparison in the report, is
    equality of the `Point` datatype. Projective coordinates and `Normalize` are not modelled.
- `DerInteger.PositiveValue` is taken as the big-endian value of the integer's content bytes. A
  sequence element that is not an integer makes the cast in Program.cs throw, which ends the run;
  that is `NotAnInteger` here.
- The DER parser has three outcomes in the model. It throws (`None`), which ends the run as
  `NotParsed`. It reads no object and returns null (`Some(DerNothing)`), as on an empty signature;
  the record is then skipped, as Program.cs line 49 skips a null. Or it returns an object; one that
  is not a sequence makes the cast at Program.cs line 102 throw, which is `NotASequence`.
- `ReadUInt16BE`, `ReadUInt32BE` and `ReadUInt64BE` are not among the available sources. They are
  modelled as big-endian reads of 2, 4 and 8 bytes that fail when fewer bytes remain.
- `ReadTicketString` decodes UTF-8 and trims NUL characters. The model trims zero bytes on the
  raw bytes, since every string read is discarded.
- Read21Ticket, Read30Ticket: the straight-line calls in NPTicket.cs are one loop over a table of
  field kinds (`Layout21`, `Layout30`), proved to read the same fields in the same order.
- IntegerFunctions.Jacobi: periodicity in A modulo B (IntegerFunctions.cs line 27) is proved only
  up to sign, as `JacobiPeriodicUpToSign`. The multiplicative rules of lines 25-26 are not proved.
  With the sign, these rules say the reciprocity steps the loops take are consistent, which is
  quadratic reciprocity; that theorem is not formalised here.
- IntegerFunctions.TonelliShanksLoop: if repeated squaring does not reach 1 within the current
  bound, `Ressol` goes on with a negative t or squares forever. The model stops with
  `OrderBoundExceeded` instead. For an odd prime p this case cannot arise, but that is not proved.
- IntegerFunctions.TonelliShanksSquaresPrime: assumes, as a hypothesis, that a quadratic
  non-residue below p exists. This is a standard fact for odd primes, which the model does not
  prove.
- IntegerFunctions.FastPathSquares: assumes Euler's criterion (a^((p-1)/2) ≡ 1 for a residue) as
  a hypothesis instead of the `jacobi(a, p) == 1` test in `Ressol`. Equating the two needs
  primality theory that the model does not prove.
- Points.MultiplyTwo: the scalars are non-negative. RecoverPubKey passes only s1 and s2, which
  are reduced modulo n.
- EcdsaFinder.TruncationAgreesWithSec1: the code truncates by the bit length of z rather than by
  the hash's width, as SEC 1 does. The two are proved equal only when the hash is short or its
  leading bit is set. The model follows the code.
- Only the two curves a ticket can name (secp192r1, secp224k1) are assumed well formed (an odd
  field prime, order n ≥ 2).
- Integers are unbounded, as BigInteger is. The 64-bit counters of `Ressol` (s, t) cannot
  overflow for any realistic modulus and are unbounded too.
