# Verification of tailcat-c

A Dafny model of the allocation-free cores of tailcat-c, a C implementation of the tailcat tunnel, with proofs about
them. `dafny verify dfyconfig.toml` checks everything. Nothing here runs the C program.

What is modelled, and by which files:

- **Ed25519** (`Field`, `FieldBytes`, `FieldPow`, `Curve`, `Points`, `PointBytes`, `Limbs32`, `Scalars`, `Ed25519`,
  `Primes`, `Decoding`, `Completeness`). Field elements are arrays of five 64-bit limbs written in place; the
  specification is integers modulo p = 2^255 - 19 and modulo L, section 5.1 of RFC 8032. Every operation is proved free
  of overflow, correct modulo p, and correct for the aliasing the code allows. The bounds are carried through all 256
  rounds of scalar multiplication, and no sum of points of the curve has Z = 0.
- **Codecs that undo each other** (`Utf8`, `Base64Url`, `Cbor`, `CborSkip`, `Addr`, `AddrLaws`, `AddrCode`,
  `AddrCanon`). An address is `tc`, base64url and CBOR. The iterative readers and the sticky-error writer are proved
  against recursive functions, and the functions against each other: parsing an encoded structure gives what elision
  keeps of it.
- **JSON** (`JsonText`, `Json`, `JsonGrammar`, `JsonComplete`, `JsonSound`, `JsonTheorems`, `JsonEscape`, `JsonUnits`).
  The pull reader with its depth stack accepts exactly the documents of a declarative grammar, given as concrete syntax
  trees, and a string is copied exactly when its UTF-16 units are text.
- **Streaming constructions** (`Blake2s`, `Kdf`, `Salsa20`). Incremental hashing for every way of cutting the input,
  HMAC and HKDF on top of it, and a byte-addressed keystream with secretbox on top of that. The BLAKE2s compression
  function, HSalsa20, the Salsa20 core and Poly1305 are arbitrary functions of the right shape.
- **Printers and parsers** (`ShQuote`, `PortSet`, `PortText`). ProxyCommand quoting against the shells that undo it, and
  port sets against their text.
- `Words`, `Bits`, `ModP`, `Numerals` and `Errors` hold fixed-width integers, bitwise operations on naturals,
  congruence, decimal numerals and results.

Integers are bounded subset types of `int`, so that every operation that could leave its width is a proof obligation;
wrap-around is written out where the code relies on it (the base64url accumulator, the CBOR skip counter, the BLAKE2s
byte counter). Byte strings are `seq<u8>`; buffers that the code fills are arrays.

Where the code and its documentation disagree, the model follows the code:

- The comment in `tc_cbor_skip` says the counter stays bounded by the buffer length. That holds on every run that
  succeeds (`Cbor.SuccessBound`); in general the bound is quadratic (`Cbor.SkipBound`). It holds of every run over every
  buffer of n bytes exactly when n is 1, 2, 3 or 4 (`CborSkip.OwedExact`, `Cbor.OwedMoreThanBuffer`).
- The header of the address codec says that encoding a parsed address reproduces it byte for byte. That holds exactly
  for canonical text (`AddrCanon.ReproducedIff`, `AddrLaws.LineFeedLost`): no line breaks, zero pad bits, shortest heads,
  known fields in writing order, nothing that elision drops.
- The header of the JSON reader says lone surrogates are rejected. The reader accepts the escape; copying the string
  rejects it (`JsonEscape.LoneSurrogate`), and `JsonUnits.ExpandIff` says exactly which strings are rejected.
- The encoder writes any text and any 32-bit port, and the parser refuses text that is not UTF-8 and ports outside -1 to
  65535. An address parses exactly when what elision leaves of its structure is well formed (`AddrLaws.AddressParses`,
  `AddrLaws.PortRefused`).
- A point encoding with y of p or more is decoded (`PointBytes.NonCanonicalAccepted`), so re-encoding gives the same
  bytes only below p (`PointBytes.RoundTrip`).

## Model

| member | source | states |
|---|---|---|
| `ModP.CongResidue` | src/crypto/ed25519.c:28-31 | congruence, defined with p kept symbolic as 2^(51 * 5) - 19, is having the same residue modulo the number p |
| `Field.FeAdd` | src/crypto/ed25519.c:55-59 | the limb-wise sum denotes the sum of the two values exactly; limbs below 2^54 stay below 2^55, and two reduced elements give limbs of at most 2^52 |
| `Field.FeSub` | src/crypto/ed25519.c:63-70 | with every subtrahend limb at or below the matching limb of 2p, no limb goes negative and the value is exactly f - g + 2p |
| `Field.FeCarry` | src/crypto/ed25519.c:73-95 | the carry chain keeps the value modulo p and leaves every limb below 2^51, except that limb 1 may equal 2^51 |
| `Field.ColumnsAreProduct` | src/crypto/ed25519.c:100-114 | the five schoolbook columns, with 2^255 folded back as 19, denote the product modulo p, for all integers |
| `Field.FeMul` | src/crypto/ed25519.c:98-139 | for all limbs below 2^54 no 64- or 128-bit intermediate overflows, the value is congruent to the product, and every limb is below 2^51 except that limb 2 may equal 2^51; the result may alias either operand |
| `FieldBytes.FeFromBytes` | src/crypto/ed25519.c:161-177 | the limbs denote the little-endian number modulo 2^255, and are reduced, for every 32-byte string |
| `FieldBytes.ReachesP` | src/crypto/ed25519.c:193-197 | the carry predictor is 1 exactly when the carried value has reached p, so value mod p is value minus q times p |
| `FieldBytes.Canonicalise` | src/crypto/ed25519.c:186-212 | one conditional subtraction after the carry gives the residue modulo p, in limbs below 2^51 |
| `FieldBytes.FeToBytes` | src/crypto/ed25519.c:180-222 | the 32 bytes are the little-endian number value mod p, hence the unique canonical encoding |
| `FieldBytes.FeIsZero` | src/crypto/ed25519.c:224-232 | true exactly when the value is congruent to 0 |
| `FieldBytes.FeIsNegative` | src/crypto/ed25519.c:234-239 | true exactly when the canonical residue is odd |
| `FieldBytes.FeEqual` | src/crypto/ed25519.c:241-247 | true exactly when the two values are congruent |
| `FieldPow.SquareTimes` | src/crypto/ed25519.c:257-291 | a run of n squarings multiplies the exponent held by 2^n and keeps the limbs within bounds |
| `FieldPow.FePow22523` | src/crypto/ed25519.c:250-293 | the addition chain computes z^((p - 5)/8) for every z, also when output and input are the same array |
| `FieldPow.FeInvert` | src/crypto/ed25519.c:296-340 | the addition chain computes z^(p - 2) for every z, also when output and input are the same array |
| `Curve.ConstantD` | src/crypto/ed25519.c:352-358 | the constant d satisfies 121666 d = -121665 modulo p |
| `Curve.AddExtended` | src/crypto/ed25519.c:390-426 | whatever the inputs, the sum of the unified formula satisfies XY = ZT |
| `Curve.AddOnCurve` | src/crypto/ed25519.c:390-426 | the unified formula maps two points of -x^2 + y^2 = 1 + d x^2 y^2 to a point of it |
| `Curve.AddSame` | src/crypto/ed25519.c:390-426 | the sum depends only on the residues of the coordinates |
| `Curve.AddLaws` | src/crypto/ed25519.c:387-426 | the formula commutes, has (0, 1) as neutral element, and p + (-p) is (0, 1) for every point of the curve |
| `Curve.AddIsEdwardsSum` | src/crypto/ed25519.c:387-426 | in affine terms the formula is the twisted Edwards addition law, with the denominators cleared |
| `Curve.NegateOnCurve` | src/crypto/ed25519.c:441-449 | negation stays on the curve |
| `Curve.MultipleOnCurve` | src/crypto/ed25519.c:457-469 | every round of double-and-add stays on the curve |
| `Curve.MultipleExtended` | src/crypto/ed25519.c:457-469 | from any point, on the curve or not, XY = ZT after every round, for whatever residues hold the result |
| `Points.FeCmov` | src/crypto/ed25519.c:154-159 | masked selection gives g when b is 1 and leaves f when b is 0, limb for limb |
| `Points.GeAdd` | src/crypto/ed25519.c:390-426 | from bounded points every multiplication operand stays below 2^54 and every subtrahend below 2p, the result is bounded again, and it is the unified sum modulo p, for every aliasing of result and operands |
| `Points.GeCmov` | src/crypto/ed25519.c:433-439 | selects one of two bounded points and keeps the bound, also when the two are one |
| `Points.GeNeg` | src/crypto/ed25519.c:441-449 | negates x and t modulo p and keeps the bound, in place or not |
| `Points.GeZero` | src/crypto/ed25519.c:371-377 | writes the neutral element (0, 1) |
| `Points.BasePoint` | src/crypto/ed25519.c:364-370 | the base point has y = 4/5 and is on the curve |
| `Points.GeBase` | src/crypto/ed25519.c:379-385 | writes the base point, bounded, with T = XY |
| `Points.ScalarRound` | src/crypto/ed25519.c:460-466 | a round doubles, adds and selects: from the multiple for the bits so far to the multiple with one more bit, bounds kept |
| `Points.ScalarLoop` | src/crypto/ed25519.c:457-469 | after all 256 rounds the accumulator is the multiple for the whole little-endian scalar |
| `Points.GeScalarmult` | src/crypto/ed25519.c:457-469 | r is k times p for every 32-byte k, bounded, whatever r aliases |
| `PointBytes.GeToBytes` | src/crypto/ed25519.c:478-487 | the bytes are y mod p with the parity of x mod p in the top bit, after dividing by Z |
| `PointBytes.DecodeCheck` | src/crypto/ed25519.c:519-529 | the candidate is accepted exactly when v x^2 is u or -u, and in the second case is turned into a root of v x^2 = u |
| `PointBytes.DecodeSign` | src/crypto/ed25519.c:531-541 | x gets the requested parity; exactly zero with an odd sign is refused |
| `PointBytes.GeFromBytes` | src/crypto/ed25519.c:493-548 | accepts exactly when a candidate root of (y^2 - 1)/(d y^2 + 1) checks and the sign bit fits; then the point satisfies -x^2 + y^2 = 1 + d x^2 y^2, T = XY and x has the parity of the sign bit, on both branches; otherwise the point is left alone |
| `PointBytes.RoundTrip` | src/crypto/ed25519.c:478-548 | re-encoding a decoded point gives the same 32 bytes if and only if the encoded y is below p |
| `PointBytes.OneDecodes` | src/crypto/ed25519.c:493-548 | every y congruent to 1 is accepted with sign bit 0 |
| `PointBytes.NonCanonicalAccepted` | src/crypto/ed25519.c:489-548 | a y that is not canonical, p + 1, is accepted |
| `Decoding.CandidateFound` | src/crypto/ed25519.c:505-529 | for prime p, whenever v x^2 = u has a solution the one candidate c = u v^3 (u v^7)^((p - 5)/8) satisfies v c^2 = u or v c^2 = -u |
| `Decoding.DecodableIff` | src/crypto/ed25519.c:493-548 | for prime p, a y and a sign bit are accepted if and only if some point of the curve has that y and that parity of x |
| `Decoding.InverseIsInverse` | src/crypto/ed25519.c:296-340 | for prime p, z times what `fe_invert` computes is 1 for every z that is not 0 |
| `Completeness.AddFinite` | src/crypto/ed25519.c:387-426 | for prime p and d without a square root, the sum of two points of the curve with Z not 0 is a point of the curve with Z not 0: the unified formula has no exceptional pairs |
| `Completeness.MultipleFinite` | src/crypto/ed25519.c:457-469 | under the same hypotheses, so is every round of double-and-add |
| `Completeness.ValidIsEquation` | src/crypto/ed25519.c:832-877 | under the same hypotheses, the accepted signatures are exactly those for which [S]B - [k]A is a point of the curve with Z not 0 whose affine coordinates are those R encodes |
| `Scalars.TrySub` | src/crypto/ed25519.c:569-583 | subtracts exactly when the minuend is not smaller, and otherwise changes nothing |
| `Scalars.ShiftLeft` | src/crypto/ed25519.c:585-593 | doubles the 512-bit number modulo 2^512 |
| `Scalars.ShiftRight` | src/crypto/ed25519.c:621-626 | halves the 512-bit number |
| `Scalars.DivideDown` | src/crypto/ed25519.c:606-627 | 260 rounds of conditional subtraction of L 2^259 down to L leave the remainder modulo L, with nothing shifted out of 512 bits |
| `Scalars.ScReduce` | src/crypto/ed25519.c:597-636 | the 64 bytes become exactly their value modulo L, with the high half zero |
| `Scalars.Multiply` | src/crypto/ed25519.c:652-662 | the 16-limb product is the exact product, no carry lost |
| `Scalars.ScMulAdd` | src/crypto/ed25519.c:639-708 | for all 32-byte a, b and c the result is exactly (a b + c) mod L, whatever s aliases |
| `Scalars.ScIsReduced` | src/crypto/ed25519.c:711-721 | true exactly when the 32-byte number is below L |
| `Ed25519.MultipleSame` | src/crypto/ed25519.c:457-469 | multiples depend only on the residues of the point |
| `Ed25519.SameProjective` | src/crypto/ed25519.c:865-874 | cross-multiplication decides equality of projective points |
| `Ed25519.Verify` | src/crypto/ed25519.c:832-877 | accepts exactly when S is below L, the public key and R decode, and [S]B - [k]A equals R, where k is the given hash modulo L |
| `Utf8.ArithmeticIsGrammar` | src/cbor.c:41-78 | the code's lead-byte, continuation and range tests accept exactly the characters of section 4 of RFC 3629 |
| `Utf8.Utf8Valid` | src/cbor.c:36-83 | true exactly for sequences of UTF-8 characters of section 4 of RFC 3629 |
| `Utf8.Continue` | src/cbor.c:58-63 | the inner loop finds all continuation bytes and their code point, or one that is not a continuation byte |
| `Utf8.Utf8Len` | src/json.c:538-578 | the length of the character at the front by the same grammar, 0 for none, and its code point |
| `Utf8.EncodeDecodes` | src/json.c:137-159 | what is written for a scalar value is one character of the grammar, and reading it gives the value back |
| `Utf8.DecodeEncodes` | src/json.c:137-159 | writing the code point of a character gives the same bytes |
| `Base64Url.SymbolsInvert` | src/base64url.c:35-41 | the decoding table inverts the alphabet and knows no other character |
| `Base64Url.Lengths` | src/base64url.c:43-51 | the encoded length is ceil(8n/6), the decoded maximum floor(6n/8), and they fit each other |
| `Base64Url.SextetsNumber` | src/base64url.c:53-93 | the symbols read as one base-64 number are the bytes read as one base-256 number, padded with zero bits |
| `Base64Url.EncodeInto` | src/base64url.c:53-93 | writes the encoding and its NUL exactly when both fit, and otherwise nothing |
| `Base64Url.TakeSymbol` | src/base64url.c:113-120 | a turn of the loop keeps the 32-bit wrapping accumulator equal to the number so far modulo 2^32 and the output equal to its whole bytes |
| `Base64Url.DecodeInto` | src/base64url.c:95-130 | succeeds exactly when every character but CR and LF is a symbol, their count m is not 1 mod 4, and floor(6m/8) bytes fit; then the output is that bit string cut to whole bytes, never more than the decoded maximum; each error has its cause |
| `Base64Url.DecodeIsDecoding` | src/base64url.c:95-130 | that output is unique, and is one division of the base-64 number |
| `Base64Url.RoundTrip` | src/base64url.c:53-130 | decoding the encoding of any byte string gives that string and no other |
| `Base64Url.Reproduced` | src/base64url.c:53-130 | encoding what was decoded gives the text back if and only if it holds no CR or LF and its pad bits are zero |
| `Cbor.ReadHead` | src/cbor.c:87-121 | reads the head at the position: big-endian arguments of 1, 2, 4 or 8 bytes, with the errors for truncated, indefinite and reserved heads |
| `Cbor.Reader.ReadItem` | src/cbor.c:123-191 | reads what a head means: payloads within the buffer, UTF-8 in text, container counts within the bytes left, and each error |
| `Cbor.Reader.Read` | src/cbor.c:193-201 | moves past the item on success and stays put on failure |
| `Cbor.Reader.Peek` | src/cbor.c:203-207 | the next item without moving |
| `Cbor.Reader.ReadInt` | src/cbor.c:231-253 | a 64-bit integer of either sign, or a range or type error |
| `Cbor.Reader.ReadBool` | src/cbor.c:255-266 | false and true only |
| `Cbor.Reader.ReadBytesExact` | src/cbor.c:268-280 | a byte string of exactly n bytes |
| `Cbor.Reader.ReadText` | src/cbor.c:282-299 | writes text that fits with its NUL and holds none; otherwise the error, and the buffer is left alone |
| `Cbor.Reader.SkipHead` | src/cbor.c:217-227 | one turn of the counter loop, with the counter wrapping at 64 bits |
| `Cbor.Reader.Skip` | src/cbor.c:209-229 | the counter loop passes exactly one complete item wherever the recursive parser finds one, and below 4 GiB it also fails with that parser's error exactly when that fails |
| `CborSkip.LoopWithin` | src/cbor.c:214-227 | where no run over the bytes left can bring the counter to 2^64, the loop reads exactly the items owed |
| `CborSkip.MisleadingRun` | src/cbor.c:214-227 | where one can, there is a buffer of that length whose counter wraps to 0 and ends the loop too early |
| `CborSkip.SkipExact` | src/cbor.c:209-229 | for every length, the loop agrees with the recursive parser on all buffers of that length if and only if 1 plus the most a run can add to the counter stays below 2^64 |
| `CborSkip.SkipLimits` | src/cbor.c:209-229 | that holds below 4 GiB and fails for some buffer of 17 GiB |
| `CborSkip.RunWithin` | src/cbor.c:214-227 | after any number of turns, what is owed plus the most the bytes left can still add is at most 1 plus the most the whole buffer can add |
| `CborSkip.OwedExact` | src/cbor.c:211-213 | the comment's bound, the counter at most the buffer length, holds of every run over every buffer of n bytes if and only if n is between 1 and 4 |
| `Cbor.ItemsSplit` | src/cbor.c:209-229 | reading a + b items is reading a and then b, errors included |
| `Cbor.SkipOne` | src/cbor.c:219-227 | a container's items may be counted together with the items owed after it |
| `Cbor.SkipBound` | src/cbor.c:214-227 | after n turns at least n bytes are consumed and the counter is at most 1 + consumed * length |
| `Cbor.SuccessBound` | src/cbor.c:211-227 | on every run that succeeds the counter never exceeds the bytes left |
| `Cbor.OwedMoreThanBuffer` | src/cbor.c:211-213 | on a failing run the counter can exceed the whole buffer, against the comment: five bytes that come to owe six items |
| `Cbor.HeadRoundTrip` | src/cbor.c:87-121 | every written head reads back, whatever follows it |
| `Cbor.HeadShortest` | src/cbor.c:323-353 | no head that reads the same is shorter than the one written |
| `Cbor.IntRoundTrip` | src/cbor.c:360-369 | every 64-bit integer reads back |
| `Cbor.BoolRoundTrip` | src/cbor.c:371-374 | both booleans read back |
| `Cbor.StringRoundTrip` | src/cbor.c:381-391 | byte strings, and text that is UTF-8, read back |
| `Cbor.ContainerRoundTrip` | src/cbor.c:393-401 | container headers read back when enough follows them |
| `Cbor.Writer.Put` | src/cbor.c:311-321 | everything asked for so far has been written, or an error stands because it cannot all fit; this holds after every call |
| `Cbor.Writer.WriteHead` | src/cbor.c:323-353 | appends the shortest head |
| `Cbor.Writer.WriteInt` | src/cbor.c:360-369 | appends the integer, most negative one included |
| `Cbor.Writer.WriteString` | src/cbor.c:381-391 | appends a byte or text string with its head |
| `Cbor.Writer.Finish` | src/cbor.c:403-410 | succeeds exactly when everything asked for fits, and then it is all there |
| `AddrCode.ReadKey` | src/addr.c:23-33 | a one-character text key, 0 for longer ones, an error for other types |
| `AddrCode.ExpectMap` | src/addr.c:38-48 | only a map will do, null included |
| `AddrCode.ReadPort` | src/addr.c:53-64 | an integer from -1 to 65535, or a range error |
| `AddrCode.ParseNodeFrom` | src/addr.c:66-117 | the loop reads the node the functional parser reads, with the same error; unknown keys are skipped and later keys override |
| `AddrCode.ParseRegionFrom` | src/addr.c:119-175 | the same for a region and its nodes, at most eight |
| `AddrCode.RestoreElided` | src/addr.c:179-205 | the nested loops fill in exactly the missing region numbers, codes, node names and node region numbers |
| `AddrCode.ParseInto` | src/addr.c:207-313 | any text gives the structure or the error of the functional parser: prefix, size, base64url, one map, the server key in it, nothing after it |
| `AddrCode.NodePairCount` | src/addr.c:330-350 | the announced count is the number of fields that will be written |
| `AddrCode.EncodeNode` | src/addr.c:360-385 | appends the node's map for any text and ports: absent fields omitted, the name dropped when there is a hostname |
| `AddrCode.EncodeRegion` | src/addr.c:387-400 | appends the region's map: only the node list survives |
| `AddrCode.EncodeInfo` | src/addr.c:410-450 | the CBOR of the whole structure, with its announced pair count |
| `AddrCode.AddrEncode` | src/addr.c:402-476 | more than two regions are refused; otherwise the address and its NUL are written exactly when they fit the caller's buffer |
| `Addr.ElideRestore` | src/addr.c:179-205 | eliding what was restored gives what was elided, and eliding twice is eliding once |
| `AddrLaws.NodeParses` | src/addr.c:66-117 | a written node, whatever text and ports it holds, parses if and only if what elision leaves of it is well formed, and then gives the node elided, whatever follows it |
| `AddrLaws.RegionParses` | src/addr.c:119-175 | the same for a region |
| `AddrLaws.InfoParses` | src/addr.c:232-306 | the same for the CBOR of a whole structure |
| `AddrLaws.InfoSize` | src/addr.c:402-476 | every structure, well formed or not, fits the scratch buffer, and its address fits TC_ADDR_STR_MAX |
| `AddrLaws.AddressParses` | src/addr.c:207-313 | for any value of the C structure within its counts, its address parses if and only if the structure elided is well formed, and then gives it elided, or elided and restored |
| `AddrLaws.PortRefused` | src/addr.c:53-64 | a structure with a port of 65536 is written and refused |
| `AddrLaws.ParsedOk` | src/addr.c:207-313 | whatever the bytes, a parsed structure is within every limit |
| `AddrLaws.DecimalOk` | src/addr.c:187-192 | the decimal region number of any int64 fits the code field and is text |
| `AddrLaws.RestoreOk` | src/addr.c:179-205 | restoring and eliding keep a structure well-formed |
| `AddrLaws.SameAddress` | src/addr.c:402-476 | two structures have the same address if and only if elision leaves the same of both |
| `AddrLaws.AddressRoundTrip` | src/addr.c:207-313 | parsing the address of a well-formed structure gives the structure elided, or elided and restored |
| `AddrLaws.Reencode` | src/addr.c:402-476 | encoding either reading of an address gives the same address |
| `AddrCanon.InfoWritten` | src/addr.c:207-306 | CBOR that passes the test on its bytes is, byte for byte, what is written for the structure it parses to |
| `AddrCanon.InfoShort` | src/addr.c:402-450 | what is written for any well-formed structure passes that test |
| `AddrCanon.ReproducedIff` | src/addr.c:315-323 | text that parses is reproduced by encoding if and only if it passes a test on the text alone: no CR or LF, zero pad bits, shortest heads, known fields in writing order and none twice, no field with its default value and none that elision drops |
| `AddrLaws.LineFeedLost` | src/addr.c:207-313 | not every address that parses is reproduced: a line feed at the end is accepted and lost |
| `JsonText.StringSound` | src/json.c:54-134 | what the scanner accepts is a string of section 7 of RFC 8259 in valid UTF-8 |
| `JsonText.StringComplete` | src/json.c:54-134 | every such string is accepted up to its closing quote |
| `JsonText.NumSound` | src/json.c:264-303 | a scanned number is a number of section 6 of RFC 8259 and is what stands at the front |
| `JsonText.NumComplete` | src/json.c:264-303 | every such number is scanned whole when nothing that continues it follows |
| `Json.Reader.SkipWs` | src/json.c:22-26 | moves past exactly the white space |
| `Json.Reader.StringUnit` | src/json.c:66-130 | the length of the next string character by the grammar, or the error it gives |
| `Json.Reader.ScanString` | src/json.c:54-134 | the slice between the quotes, or the error of the functional scanner |
| `Json.Reader.Magnitude` | src/json.c:315-324 | the overflow test fires exactly when the digits exceed 64 bits, and otherwise the magnitude is their value |
| `Json.Reader.ScanNumber` | src/json.c:264-340 | is_integer and num hold exactly for integers without fraction and exponent that fit int64 |
| `Json.Reader.ReadValue` | src/json.c:354-395 | one scalar, or one level entered unless 32 are open |
| `Json.Reader.NextEvent` | src/json.c:397-502 | one call moves the reader's fields as one step of the functional reader, errors included |
| `Json.Reader.SkipValue` | src/json.c:504-525 | the loop leaves the reader where the functional skip does, with the same error |
| `Json.NextShrinks` | src/json.c:397-502 | every call that delivers an event consumes text |
| `JsonComplete.InnerRun` | src/json.c:397-502 | from a value inside a container the calls deliver the value's traversal and stop right behind it |
| `JsonComplete.DocComplete` | src/json.c:397-502 | a document of the grammar, nested at most 32 deep, is delivered to its end, and the end stays |
| `JsonSound.StepSound` | src/json.c:397-502 | every call that succeeds keeps what has been read the beginning of a document with the delivered events as its traversal, or completes one |
| `JsonSound.RunSound` | src/json.c:397-502 | the same over every run |
| `JsonTheorems.Acceptance` | src/json.c:397-502 | the calls reach the end without error if and only if the buffer is one value of section 2 of RFC 8259 with white space around it, nested at most 32 deep; the events are its in-order traversal |
| `JsonTheorems.NextHeight` | src/json.c:397-502 | every call changes the depth by what its event says |
| `JsonTheorems.SkipExact` | src/json.c:504-525 | skipping passes exactly one value, however deep, and nothing more |
| `JsonTheorems.SkipMember` | src/json.c:504-525 | right after a name, skipping passes exactly that member's value |
| `JsonTheorems.SkipSound` | src/json.c:504-525 | conversely, in every run that has just delivered a name, a skip that succeeds has passed white space and exactly one value of the grammar, nested within the depth limit, and leaves its level marked as having an element |
| `JsonSound.OpenStep` | src/json.c:397-502 | a call inside a level either turns that level into a value of the one outside it or leaves the levels outside as they were |
| `JsonEscape.CharsEscapes` | src/json.c:161-241 | in a slice the scanner accepted every backslash begins a complete escape, so the copier never reads outside it |
| `JsonEscape.DeliveredText` | src/json.c:243-258 | every name and string the reader delivers may be copied and compared |
| `JsonEscape.CopyUnit` | src/json.c:170-229 | one escape or byte, with surrogate pairs joined; lone surrogates and NUL are errors |
| `JsonEscape.StringCopy` | src/json.c:161-241 | succeeds exactly when the slice expands and the text fits with its NUL |
| `JsonEscape.KeyIs` | src/json.c:243-258 | true exactly when the expanded name equals the literal, except that an escaped name of 256 bytes or more never matches |
| `JsonEscape.Escape` | src/json.c:580-664 | writes the escaped text and its NUL exactly when both fit |
| `JsonEscape.EscapedSize` | src/json.c:580-664 | at most six bytes of output per byte of input |
| `JsonEscape.EscapeRoundTrip` | src/json.c:580-664 | for every NUL-free text the escaped form may stand between quotes, and expanding it gives the text with each byte that is no UTF-8 replaced by U+FFFD |
| `JsonEscape.EscapeIdentity` | src/json.c:580-664 | for UTF-8 text the quoted escape scans as one string and reads back as the text |
| `JsonEscape.LoneSurrogate` | src/json.c:73-95 | the scanner accepts a lone surrogate escape; only expanding it fails |
| `JsonUnits.ScalarsIff` | src/json.c:193-216 | UTF-16 units stand for scalars if and only if every surrogate is one of a high-low pair and no unit is zero |
| `JsonUnits.ExpandDenotes` | src/json.c:161-241 | for every string the scanner accepts, expanding gives the UTF-8 of the scalars its UTF-16 units stand for, and an error if they stand for none |
| `JsonUnits.ExpandIff` | src/json.c:161-241 | a string the scanner accepts can be copied if and only if every surrogate is one of a high-low pair and no unit is zero; the copy is then UTF-8 without NUL |
| `Blake2s.ParameterXor` | src/crypto/blake2s.c:124-127 | the exclusive-ors of the parameter word put three fields that do not overlap side by side |
| `Blake2s.AbsorbedPrefix` | src/crypto/blake2s.c:147-179 | the chaining value depends only on the blocks absorbed |
| `Blake2s.Ctx.Update` | src/crypto/blake2s.c:147-179 | after every call all blocks but the last are compressed with the right counter and the last is pending; the data absorbed grows by the input, however it is cut |
| `Blake2s.Ctx.Final` | src/crypto/blake2s.c:181-196 | the digest is that of section 3.3 of RFC 7693 on everything absorbed |
| `Blake2s.HashPieces` | src/crypto/blake2s.c:147-196 | for every list of pieces, updating with each in turn gives the hash of their concatenation, keyed or not |
| `Blake2s.InitKey` | src/crypto/blake2s.c:109-140 | lengths are clamped, and a key is absorbed as a zero-padded block of its own |
| `Blake2s.HashOnce` | src/crypto/blake2s.c:198-205 | one call gives the same hash |
| `Kdf.HmacBlake2s` | src/crypto/kdf.c:21-63 | HMAC of RFC 2104 over the concatenation of the two pieces, for keys of any length |
| `Kdf.Kdf1` | src/crypto/kdf.c:72-83 | 32 octets of HKDF-Expand of section 2.3 of RFC 5869 with empty info |
| `Kdf.Kdf2` | src/crypto/kdf.c:85-97 | 64 octets of the same stream in two halves |
| `Kdf.Kdf3` | src/crypto/kdf.c:99-113 | 96 octets of the same stream in three parts |
| `Kdf.ExpandPrefix` | src/crypto/kdf.c:72-113 | a longer expansion begins with a shorter one |
| `Salsa20.SalsaBlock` | src/crypto/salsa20.c:138-158 | the block for a nonce and a 64-bit little-endian counter |
| `Salsa20.XSalsa20Xor` | src/crypto/salsa20.c:160-197 | for every offset and length, in place or not, byte i becomes itself XOR keystream byte offset + i, and nothing else changes |
| `Salsa20.CryptSplit` | src/crypto/salsa20.c:160-197 | a message may be cut anywhere as long as the offset moves along |
| `Salsa20.CryptTwice` | src/crypto/salsa20.c:160-197 | applying the keystream twice gives the message back |
| `Salsa20.DerivePolyKey` | src/crypto/salsa20.c:202-214 | the authenticator's key is keystream bytes 0 to 31 |
| `Salsa20.OnePass` | src/crypto/salsa20.c:199-241 | the box is what one pass of the cipher over 32 zero bytes and the message gives: its first 32 bytes key the authenticator of the rest, so the two share no keystream byte |
| `Salsa20.SecretboxSeal` | src/crypto/salsa20.c:216-241 | writes the authenticator and the message under the keystream from byte 32 |
| `Salsa20.SecretboxOpen` | src/crypto/salsa20.c:243-283 | succeeds exactly on sealed boxes, and then the plaintext is the one that was sealed; otherwise nothing is written |
| `Salsa20.SealedInjective` | src/crypto/salsa20.c:216-241 | different messages have different boxes |
| `ShQuote.App` | src/shquote.c:14-21 | appends a byte and a NUL, or reports that the whole text cannot fit |
| `ShQuote.JoinPosix` | src/shquote.c:41-71 | writes the quoted arguments exactly when they fit |
| `ShQuote.JoinWindows` | src/shquote.c:73-107 | the same for Windows, refusing exactly arguments with a quote, a percent sign or an exclamation mark |
| `ShQuote.ProxycmdJoin` | src/shquote.c:109-124 | succeeds exactly when no argument holds a control character, none is refused and the line fits |
| `ShQuote.PosixRoundTrip` | src/shquote.c:41-71 | reducing %% to % and splitting by POSIX shell quoting gives back exactly the arguments, whatever bytes they hold |
| `ShQuote.WindowsRoundTrip` | src/shquote.c:73-107 | the Windows argument parser gives back exactly the arguments, trailing backslashes included |
| `PortSet.Set.Clear` | src/portset.c:29-33 | the empty set, with count zero |
| `PortSet.Set.Add` | src/portset.c:35-44 | adds one port, port 0 never; the count stays the number of ports set |
| `PortSet.Set.Has` | src/portset.c:46-51 | membership, never for port 0 |
| `PortSet.Set.AddRange` | src/portset.c:53-66 | adds a range in either order, to 65535 inclusive; the count stays the number of ports set |
| `PortText.ParseNum` | src/portset.c:89-113 | the loop gives the port number, or the error of the first offending character |
| `PortText.PortNumberIff` | src/portset.c:89-113 | succeeds exactly on non-empty digit strings worth 1 to 65535 in decimal; the error is a range error exactly when the digits at the front exceed 65535 |
| `PortText.Parse` | src/portset.c:129-213 | adds the ports of every entry up to the first error, which is reported |
| `PortText.ListMeaning` | src/portset.c:129-213 | the entries are the text between commas; exactly those before the first bad one are added, and the error is that one's |
| `PortText.Describe` | src/portset.c:215-257 | an error exactly when the runs that are shown do not fit; otherwise the description cut to what fits, which can only cut one of the three fixed texts |
| `PortText.RunsExact` | src/portset.c:230-256 | the runs are valid stretches in increasing order with at least one port missing between any two, and together they are exactly the set |
| `PortText.RunsUnique` | src/portset.c:230-256 | no other stretches in order and with gaps make up the set, so these are its maximal runs |
| `PortText.DescriptionSize` | src/portset.c:215-257 | a buffer of 108 bytes holds any description |
| `PortText.DescribeRoundTrip` | src/portset.c:129-257 | parsing the description rebuilds the set if and only if the set is neither empty nor full and has at most eight maximal runs |

## Left out

- Ed25519 signing and key generation, SHA-512 and the random source: the verifier takes the hash of R, A and M as a parameter.
- Associativity of the curve group, and primality of p and of L.
- Decoding.DecodableIff: that p is prime is a hypothesis; what is needed of it, Fermat's theorem included, is proved in `Primes`.
- Decoding.CandidateFound: the same hypothesis.
- Decoding.InverseIsInverse: the same hypothesis.
- Completeness.AddFinite: that p is prime and that d has no square root modulo p are hypotheses.
- Completeness.MultipleFinite: the same hypotheses.
- Completeness.ValidIsEquation: the same hypotheses.
- Constant time and wiping of secrets: not expressible here.
- NULL pointer arguments, error strings, and which named service `tc_portset_parse` met.
- Ed25519.Verify: the source's signature is passed as its two 32-byte halves, and the hash as the 64-byte buffer the code reduces in place.
- AddrCode.AddrEncode: text fields hold what strlen reports, without a NUL and within their buffers, and a region counts at most eight nodes; the base64url text is written to a scratch buffer before it is copied behind the prefix.
- AddrCode.ParseNodeFrom: structures are values that the loops rebuild, not C structs overwritten in place.
- Json.Reader.NextEvent: claims run up to the first error; the reader's later behaviour after an error is not described.
- Blake2s.Ctx.Final: the context is not wiped.
- Salsa20.SecretboxOpen: tags are compared for equality; a failure inside Poly1305 is not modelled. Public-key boxes, which only add a key agreement, are not either.
- ShQuote.WindowsRoundTrip: one rule for every argument; the rule Windows has for the program name, and the expansion done by cmd.exe, are not modelled.
- `tc_ssh_dest_host`, `tc_flag_scan` and `tc_ssh_dest_index`: smaller, and the first is tied to a hash and to snprintf.
- The concrete BLAKE2s and Salsa20 rounds: the theorems hold for any functions in their place.
- The TCP stack, WireGuard, Noise, path discovery, DERP, SSH and the command line: network, clocks, threads and libraries that are not part of this model.
- src/keyfile.c, src/allowlist.c, src/duration.c, src/endpoint.c, src/net/nat64.c and src/browser.c read key files, allow lists, durations, socket addresses and NAT64 prefixes, and start a browser. Each is a thin layer over the file system, snprintf, inet_pton or exec, whose behaviour would have to be assumed.
