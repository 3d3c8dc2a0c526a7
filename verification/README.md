# gentx sign bytes, multisignatures and canonical JSON, verified

`gentxvalidate` rebuilds the exact bytes a Cosmos wallet signed for a genesis transaction (gentx) and decides whether the
gentx is acceptable for a launch; `canonicaljson` produces the deterministic JSON that is signed elsewhere. This project
models both in Dafny and proves what they are for: the bytes bind the fields, the canonical text is a normal form, a
multisignature is accepted exactly when it should be, and what the checks accepted is what was signed.

`dafny verify dfyconfig.toml` checks the whole project.

## How it is organised

| file | content |
|---|---|
| `Basics`, `Utf8` | bytes, optional results, UTF-8 (section 3 of RFC 3629) with its round trip and order |
| `Protowire` | base-128 varints, Go's varint reader, records: the writer and a general reader |
| `Messages` | a message as a table of slots with proto3 emission rules; reading fields back; the rules themselves |
| `Decimal` | digit strings, numerals, the fixed-point wire form of a decimal, the rational it denotes |
| `Gentx` | the decoded gentx |
| `SignDocTables`, `SignedFields` | the messages of the DIRECT document as tables; where every gentx field stands in the bytes, tag by tag |
| `SignDoc`, `SignDocReader` | the DIRECT encoders as methods; a reader for the document and the injectivity theorem |
| `Multisig` | bitarray, envelope parser, k-of-n decision, address preimage |
| `StringOrder`, `JsonText`, `JsonGrammar` | sorting; a JSON parser that also keeps every member's source text; the grammar of RFC 8259 and the proof that the parser accepts exactly it |
| `CanonicalPrint`, `CanonicalForm` | the canonical text as a function of the value; what it looks like and when there is one, as a relation |
| `CanonicalJson`, `PrintParse`, `CanonicalTheorems` | the canonicaliser as methods, printed values parse back, and the normal form theorems |
| `Base64`, `AminoDocument`, `AminoTheorems`, `AminoFields`, `AminoSignDoc` | the amino sign document: declaration order is sorted order, what its bytes determine, its members name by name, and the encoder |
| `Invariants`, `Runner`, `CheckedIsSigned` | the checks and verifiers; what every invariant demands and the runner; accepted means the signed document meets the policy |

Code that grows a buffer step by step is a method with the same branches and loops, proved equal to a specification
function; the theorems are about that function. What such a function means is stated a second time without it: field numbers,
tags, json names, bit weights, escapes, mode names and sizes stand in `SignedFields`, `AminoFields`, `CanonicalForm`,
`JsonGrammar`, `Multisig` and `Runner` as literals, and the methods ensure those statements too. Go's `(value, error)` is `Option`, and an index out of range, where the code
can run into one, is an outcome of its own. A Go string holding valid UTF-8 is the sequence of its scalar values, and its
bytes are `Utf8.ToUtf8`.

Two readers carry the injectivity theorems and have no counterpart in the Go code except the envelope parser: the wire
reader of `Protowire`, `Messages` and `SignDocReader`, and the JSON parser of `JsonText`. Both are written independently of
the encoders, from the Protocol Buffers "Encoding" guide and RFC 8259, and characterised in turn (`Protowire.VarintExactly`,
`Protowire.RecordLayout`, `JsonGrammar.ParsesExactly`).

## Where code and documentation differ

- `gentxvalidate/invariants.go:11-13` and the repository's `README.md:12` promise that invariants never panic on malformed
  input. The decoder copies `extra_bits_stored` without a check (`gentxvalidate/decode.go:338-344`), `bitCount` only adds it
  up, and `signerIndices` then indexes past the bitarray. The model follows the code. `Multisig.InBoundsExactly` gives the
  exact condition (at most eight extra bits), `Multisig.BitCountCheckIsNotEnough` a concrete signer that passes the bit count
  check and is out of range, and `Invariants.DecodedGentxCanPanic` a whole gentx of the decoder's shape. `Runner.RunChecks`
  says when the run reports nothing: exactly when a chain-id is set and the gentx reaches that loop with such a signer.
- The comment on `signerIndices` (`gentxvalidate/multisig.go:112-114`) names the bit count check as sufficient for callers;
  by the same lemmas it is not.
- `canonicaljson.MarshalForSigning` is documented for objects; for an argument that marshals to `null` it returns `{}`
  (`CanonicalForm.SigningSucceeds`).

## Model

| member | source | states |
|---|---|---|
| `Protowire.AppendUvarint` | gentxvalidate/protowire.go:14-20 | the loop of shifts and marked bytes appends exactly the base-128 digits of the value |
| `Protowire.ReadBack` | gentxvalidate/protowire.go:14-20 | reading a written number returns it with its exact length, whatever bytes follow |
| `Protowire.VarintExactly` | gentxvalidate/protowire.go:14-20 | a varint is read exactly when it is a run of bytes with the top bit and one without, and its value is the sum of their seven-bit groups, lightest first |
| `Protowire.Minimal` | gentxvalidate/protowire.go:14-20 | no byte string that reads as a number is shorter than the one written for it |
| `Protowire.PrefixFree` | gentxvalidate/protowire.go:14-20 | equal concatenations have equal numbers and equal suffixes |
| `Protowire.GoUvarintExact` | gentxvalidate/multisig.go:132-138 | Go's reader accepts exactly the varints of at most ten bytes and below 2^64, minimal or not, and agrees with the unbounded reader on them |
| `Protowire.GoReadBack` | gentxvalidate/protowire.go:14-20 | a 64-bit number takes at most ten bytes and Go's reader returns it with its exact length |
| `Protowire.AppendTag` | gentxvalidate/protowire.go:22-24 | appends the varint of field number and wire type |
| `Protowire.AppendVarintField` | gentxvalidate/protowire.go:26-29 | appends one varint record, the earlier bytes untouched |
| `Protowire.AppendBytesField` | gentxvalidate/protowire.go:31-35 | appends one length-delimited record, the earlier bytes untouched |
| `Protowire.AppendStringField` | gentxvalidate/protowire.go:37-41 | appends one length-delimited record of the string's UTF-8 bytes, whose length counts bytes |
| `Protowire.RecordLayout` | gentxvalidate/protowire.go:22-41 | a record's bytes are the tag eight times the field number, plus two for a payload, then the number, or the length and that many bytes |
| `Protowire.ReadFieldsBack` | gentxvalidate/protowire.go:14-41 | any list of records is recovered, in order, from its bytes |
| `Protowire.RewriteNoLonger` | gentxvalidate/multisig.go:125-153 | headers and payloads account for every byte read: writing what was read takes no more bytes |
| `Messages.SlotReadsBack` | gentxvalidate/signdoc.go:8-15 | omitting default values loses nothing: each singular field reads back as what the encoder was given |
| `Messages.RepeatedReadsBack` | gentxvalidate/signdoc.go:104-113 | a repeated field followed by others reads back as the same list in the same order |
| `Messages.WrittenByRules` | gentxvalidate/signdoc.go:8-15 | a table with ordered numbers yields bytes that parse to non-decreasing field numbers, repeat only what may repeat, hold no default outside the required and repeated fields, and hold every required field |
| `Decimal.CheckDigits` | gentxvalidate/signdoc.go:273-283 | accepts exactly the non-empty digit strings |
| `Decimal.TrimmedIsNumeral` | gentxvalidate/signdoc.go:257-260 | trimming leading zeros leaves the numeral of the same value, and nothing exactly at zero |
| `Decimal.NumeralUnique` | gentxvalidate/signdoc.go:238-241 | a digit string is the numeral of its value exactly when it has no leading zero or is "0" |
| `Decimal.CutAcceptsDecimals` | gentxvalidate/signdoc.go:242-254 | cutting at the first dot and checking both parts accepts exactly a digit run with an optional dot and at most eighteen more digits |
| `Decimal.LegacyDecWire` | gentxvalidate/signdoc.go:242-262 | succeeds exactly on decimals, and then returns the leading-zero-free numeral of the value times 10^18 |
| `Decimal.ScalingIsExact` | gentxvalidate/signdoc.go:255-262 | the scaled integer is exactly 10^18 times the rational number the string denotes |
| `Decimal.WireDecidesValue` | gentxvalidate/invariants.go:25-32 | wire forms are equal exactly when the rationals are, and comparing parsed integers is comparing the rationals |
| `Decimal.DecValueIsScaled` | gentxvalidate/invariants.go:25-32 | parsing the wire numeral gives the scaled value, for exactly the accepted strings |
| `Decimal.DecValuesInOrder` | gentxvalidate/invariants.go:25-32 | both strings parse and compare as integers exactly when both are decimals in that order |
| `Decimal.SetStringExactly` | gentxvalidate/invariants.go:67-74 | a string parses to an integer exactly when it is digits with an optional sign and that value |
| `SignDoc.IntWire` | gentxvalidate/signdoc.go:266-271 | a digit string is its own wire form, leading zeros kept; anything else is an error |
| `SignDoc.EncodeAny` | gentxvalidate/signdoc.go:227-236 | type and value stand under tags 0x0A and 0x12, each omitted exactly when empty |
| `SignDoc.EncodeCoin` | gentxvalidate/signdoc.go:212-224 | succeeds exactly on a digit amount; the denom stands under 0x0A unless empty, the amount always under 0x12 |
| `SignDoc.EncodeCommission` | gentxvalidate/signdoc.go:189-208 | succeeds exactly on three decimals; under 0x0A, 0x12 and 0x1A stand the numerals of rate, maximum and maximum change times 10^18 |
| `SignDoc.EncodeDescription` | gentxvalidate/signdoc.go:167-185 | moniker, identity, website, security contact and details stand under fields 1 to 5, an empty one omitted |
| `SignDoc.EncodeMsgCreateValidator` | gentxvalidate/signdoc.go:130-163 | succeeds exactly on valid rates, minimum self-delegation and amount; each of the seven fields holds its part of the message, only the two addresses being omitted when empty |
| `SignDoc.EncodeFee` | gentxvalidate/signdoc.go:105-124 | succeeds exactly on digit amounts; every coin in order under 0x0A, then gas, payer and granter unless zero or empty |
| `SignDoc.EncodeSignerInfo` | gentxvalidate/signdoc.go:88-102 | key type and key in field 1, mode 1 inside field 2, a non-zero sequence in field 3 |
| `SignDoc.EncodeTxBody` | gentxvalidate/signdoc.go:52-68 | fails exactly on an invalid message; the message stands in an Any of its type URL, memo and timeout height follow unless empty or zero |
| `SignDoc.EncodeAuthInfo` | gentxvalidate/signdoc.go:73-84 | fails exactly on an invalid fee; signer and fee always stand in fields 1 and 2 |
| `SignDoc.DirectSignBytes` | gentxvalidate/signdoc.go:25-49 | succeeds exactly when the mode is SIGN_MODE_DIRECT, the three rates are decimals and minimum self-delegation, amount and every fee amount are digits; every field of the gentx stands in the bytes under its own tag and field number, with no other record |
| `SignedFields.GentxHeld` | gentxvalidate/signdoc.go:25-236 | the sign bytes hold the gentx's own fields message by message: exact tag lists, text under literal field numbers, mode 1, the message's type URL, rates times 10^18 |
| `SignDocReader.CoinsReadBack` | gentxvalidate/signdoc.go:107-113 | a wire reader recovers any list of fee coins, in order |
| `SignDocReader.MsgReadsBack` | gentxvalidate/signdoc.go:126-163 | a wire reader recovers every field of the validator message through its nested messages |
| `SignDocReader.FeeReadsBack` | gentxvalidate/signdoc.go:104-124 | a wire reader recovers the whole fee |
| `SignDocReader.SignerReadsBack` | gentxvalidate/signdoc.go:86-102 | a wire reader recovers key type, key, mode and sequence |
| `SignDocReader.SignDocReadsBack` | gentxvalidate/signdoc.go:25-236 | a wire reader recovers the whole signed document from its bytes |
| `SignDocReader.DirectBytesDetermineFields` | gentxvalidate/signdoc.go:25-262 | DIRECT sign bytes of two gentxs are equal exactly when chain, account number and every signed field are, the commission strings as rational numbers |
| `SignDocReader.DocumentFollowsRules` | gentxvalidate/signdoc.go:8-15 | every message of the document is in field order, omits defaults, and holds its always-emitted fields exactly once; only the fee repeats a field |
| `Multisig.SignerIndices` | gentxvalidate/multisig.go:115-123 | runs out of range exactly when members outnumber stored bits; otherwise lists, increasing, exactly the positions below the member count whose bit is set, 128 first |
| `Multisig.SetPositionsExact` | gentxvalidate/multisig.go:112-123 | the list is strictly increasing, holds exactly the set most-significant-first positions, and is as long as there are set bits |
| `Multisig.PackedBack` | gentxvalidate/multisig.go:115-123 | packing the listed positions with weights 128 down to 1 gives every byte of the array back |
| `Multisig.PaddingIgnored` | gentxvalidate/multisig.go:112-123 | bits at or past the member count never change the list |
| `Multisig.InBoundsExactly` | gentxvalidate/multisig.go:102-123 | once bit count equals member count, every access is in bounds exactly when at most eight extra bits are declared |
| `Multisig.BitCountCheckIsNotEnough` | gentxvalidate/multisig.go:112-123 | a signer with a threshold in range exists that passes the mode and bit count checks and has more members than stored bits |
| `Multisig.ParseMultiSignature` | gentxvalidate/multisig.go:128-153 | the loop computes the recursive envelope parser, with an error on no signatures |
| `Multisig.ParsesExactly` | gentxvalidate/multisig.go:128-153 | accepted inputs are exactly the concatenations of signature records, whose payloads are returned |
| `Multisig.EnvelopeRoundTrip` | gentxvalidate/multisig.go:125-153 | writing any list of signatures as field 1 and parsing returns that list |
| `Multisig.ParsedAsFields` | gentxvalidate/multisig.go:125-153 | on accepted input the general wire reader finds the same payloads, all in field 1 |
| `Multisig.RewrittenEnvelope` | gentxvalidate/multisig.go:128-153 | writing a parsed envelope again is never longer and parses to the same list |
| `Multisig.VerifyAminoMultisig` | gentxvalidate/multisig.go:57-99 | accepts exactly when all modes are amino, one bit is stored per member, the envelope holds one signature and one mode per set bit, at least threshold of them, each of 64 bytes and valid for its selected 33-byte secp256k1 member; refuses exactly below the threshold or when the first bad signature is a well-formed mismatch; reads out of range exactly with more than eight extra bits behind the earlier checks |
| `Multisig.AcceptsExactly` | gentxvalidate/multisig.go:57-99 | what the code's order of checks accepts is what the unordered condition on some lists of signers and signatures demands |
| `Multisig.ThresholdMembersSigned` | gentxvalidate/multisig.go:57-99 | an accepted multisignature has valid signatures over the same bytes from at least threshold distinct members whose bits are set |
| `Multisig.MultisigAddressBytes` | gentxvalidate/multisig.go:38-55 | fails exactly on a member that is neither secp256k1 nor ed25519; otherwise the first twenty bytes of the hash of a preimage that holds prefix, threshold and members |
| `Multisig.PreimageReadsBack` | gentxvalidate/multisig.go:38-52 | the preimage starts with the registered prefix; a wire reader finds the threshold in field 1 and, in order, every member's type prefix, key length and key in field 2, and nothing else |
| `Multisig.PreimageInjective` | gentxvalidate/multisig.go:34-52 | equal preimages come from equal thresholds and equal ordered members |
| `StringOrder.SortSorts` | canonicaljson/canonicaljson.go:95-95 | sorting distinct keys gives an ascending list of the same keys |
| `StringOrder.AscendingUnique` | canonicaljson/canonicaljson.go:91-95 | a set of keys has one ascending list, so the order of collection cannot matter |
| `Utf8.OrderPreserved` | canonicaljson/canonicaljson.go:95-95 | comparing keys by bytes is comparing them by scalar values |
| `Utf8.EncodeCharExactly` | gentxvalidate/protowire.go:37-41 | the bytes of a string character are those of the UTF-8 table, and weigh its scalar value |
| `JsonText.ValueLocal` | canonicaljson/canonicaljson.go:66-78 | a value parses the same in any surrounding text, so a member's raw text stands for the member |
| `JsonGrammar.ParsesExactly` | canonicaljson/canonicaljson.go:66-87 | the parser gives a value for a text exactly when the grammar of RFC 8259 derives it, with Go's last duplicate and lone surrogates, and then the same value |
| `JsonGrammar.NumberExactly` | canonicaljson/canonicaljson.go:80-87 | number tokens are exactly optional minus, integer without leading zeros, optional fraction, optional exponent |
| `CanonicalPrint.TrimExactly` | canonicaljson/canonicaljson.go:60-63 | trimming leaves the text without its leading and trailing Unicode white space |
| `CanonicalForm.RendersExactly` | canonicaljson/canonicaljson.go:80-135 | the printed value is the one text with the literal punctuation, the keys once in byte order, the escapes of json.Marshal and the numbers as printed |
| `CanonicalForm.InRangeExactly` | canonicaljson/canonicaljson.go:80-87 | a value can be printed exactly when every number token occurring in it can |
| `CanonicalForm.CanonicalUnique` | canonicaljson/canonicaljson.go:59-88 | a result that succeeds exactly when the text parses with its numbers in range, and renders the value parsed, is the canonical text |
| `CanonicalForm.SigningTextExactly` | canonicaljson/canonicaljson.go:41-56 | the signing text is the one text rendering the object without "signature" and "pubkey_b64" |
| `CanonicalJson.CollectKeys` | canonicaljson/canonicaljson.go:91-95 | whatever order the map is iterated in, the sorted keys are the same list |
| `CanonicalJson.CanonicaliseRaw` | canonicaljson/canonicaljson.go:59-88 | dispatch on the first character, raw decoding and recursion terminate on strictly shorter texts; succeeds exactly when the trimmed text parses and every number token in it is in range, and then renders the value parsed |
| `CanonicalJson.SerialiseObject` | canonicaljson/canonicaljson.go:90-118 | prints the members in key order, each with its canonical text, failing exactly when one has none |
| `CanonicalJson.SerialiseArray` | canonicaljson/canonicaljson.go:120-135 | prints the canonical texts of the elements in order, failing exactly when one has none |
| `CanonicalJson.ItemStandsAlone` | canonicaljson/canonicaljson.go:66-78 | a member's raw text parses alone to the member's value and is strictly shorter than the whole |
| `CanonicalJson.ObjectByMembers` | canonicaljson/canonicaljson.go:66-71 | canonicalising raw members one by one is canonicalising the object, duplicates included |
| `CanonicalJson.ArrayByElements` | canonicaljson/canonicaljson.go:73-78 | canonicalising raw elements one by one is canonicalising the array |
| `CanonicalJson.Marshal` | canonicaljson/canonicaljson.go:23-31 | succeeds exactly when marshalling does and every number token is in range, and then renders the value of the text |
| `CanonicalJson.MarshalForSigning` | canonicaljson/canonicaljson.go:41-56 | succeeds exactly when marshalling gives null or an object whose kept members have their number tokens in range, and then renders the object without "signature" and "pubkey_b64" |
| `PrintParse.StringBack` | canonicaljson/canonicaljson.go:103-107 | every string survives escaping and parsing |
| `PrintParse.ValueBack` | canonicaljson/canonicaljson.go:59-135 | a printed value parses back, wherever it stands in a text |
| `PrintParse.PrintParses` | canonicaljson/canonicaljson.go:59-135 | printing and parsing any value gives it back |
| `CanonicalTheorems.CanonicalTextDenotes` | canonicaljson/canonicaljson.go:59-135 | the canonical text denotes the value of the text it was made from |
| `CanonicalTheorems.NormalForm` | canonicaljson/canonicaljson.go:59-135 | two texts have the same canonical bytes exactly when they denote the same value |
| `CanonicalTheorems.Idempotent` | canonicaljson/canonicaljson.go:59-135 | canonicalising a canonical text changes nothing |
| `CanonicalJson.LastDuplicateWins` | canonicaljson/canonicaljson.go:67-71 | a key has exactly the value of its last duplicate, and there are no other keys |
| `CanonicalTheorems.SigningBindsTheRest` | canonicaljson/canonicaljson.go:41-56 | the signing bytes of two objects are equal exactly when the objects agree on every outermost member but "signature" and "pubkey_b64"; "nonce" and nested namesakes are bound |
| `CanonicalForm.SigningSucceeds` | canonicaljson/canonicaljson.go:41-56 | a signing text exists exactly for null and for objects in which every number token of a member other than the two stripped ones is in range; null gives {} |
| `CanonicalTheorems.CanonicalObjectLayout` | canonicaljson/canonicaljson.go:90-118 | an object's canonical text has every key once, in UTF-8 byte order, and every member's text is canonical in turn |
| `Base64.EncodeInjective` | gentxvalidate/aminosigndoc.go:111-114 | equal base64 texts come from equal keys |
| `Base64.DecodeEncoded` | gentxvalidate/aminosigndoc.go:111-114 | decoding the base64 text gives the key back |
| `Base64.AlphabetExactly` | gentxvalidate/aminosigndoc.go:111-114 | the characters are the standard alphabet, letter by letter |
| `AminoSignDoc.AminoSignBytes` | gentxvalidate/aminosigndoc.go:85-146 | succeeds exactly in SIGN_MODE_LEGACY_AMINO_JSON with an ed25519 consensus key; the bytes are the canonical JSON of an object whose members, by literal name, hold the gentx's fields, an optional one being there exactly when not empty |
| `AminoFields.GentxHeld` | gentxvalidate/aminosigndoc.go:28-139 | every object of the document has exactly its json names, timeout_height, the addresses and the description texts only when not empty, and each member holds its field; the two type names are literal |
| `AminoFields.DocumentHeld` | gentxvalidate/aminosigndoc.go:85-146 | the bytes decode to a text that parses to that object and is its canonical text |
| `AminoDocument.OrderedPrintsCanonically` | gentxvalidate/aminosigndoc.go:3-11 | printing structs in alphabetical declaration order is printing their object canonically |
| `AminoDocument.KeptOrdered` | gentxvalidate/aminosigndoc.go:28-75 | dropping any combination of empty fields keeps the order |
| `AminoDocument.AminoDocOrdered` | gentxvalidate/aminosigndoc.go:28-80 | every struct of the document, at every level and for any number of coins, declares its fields in sorted order |
| `AminoDocument.AminoTextIsCanonical` | gentxvalidate/aminosigndoc.go:82-146 | the amino text is a fixed point of the canonicaliser and denotes the document |
| `AminoTheorems.FieldReadsBack` | gentxvalidate/aminosigndoc.go:28-80 | a struct field, omitted or not, reads back from the printed object |
| `AminoTheorems.DocumentDescribes` | gentxvalidate/aminosigndoc.go:94-139 | every member of the document holds the gentx field it is named after |
| `AminoTheorems.AminoBytesDescribe` | gentxvalidate/aminosigndoc.go:85-146 | the bytes decode to a JSON text whose members hold the gentx's fields |
| `AminoTheorems.AminoBytesDetermineFields` | gentxvalidate/aminosigndoc.go:85-146 | amino sign bytes of two gentxs are equal exactly when the covered fields are, commission strings verbatim; fee payer, fee granter and signer key do not matter |
| `Invariants.VerifyDirect` | gentxvalidate/verify.go:25-34 | accepts or refuses exactly by the outcome of the one key's signature over the DIRECT sign bytes, and never reads out of range |
| `Invariants.VerifyAminoJSON` | gentxvalidate/aminosigndoc.go:155-167 | accepts and refuses exactly by the multisignature or the one key over the amino sign bytes, and says when it reads out of range |
| `Invariants.RunCheckSignature` | gentxvalidate/signmode.go:38-62 | reports the declared mode's invariant with the right outcome, unless a chain is set and the multisignature reads out of range |
| `Invariants.DecodedGentxCanPanic` | gentxvalidate/decode.go:300-345 | a gentx of the shape the decoder guarantees exists on which the amino verifier reads out of range |
| `Runner.RunChecks` | gentxvalidate/runner.go:34-41 | reports one failed result for what does not decode, otherwise ten results in order, each passed exactly when the gentx meets its invariant, and nothing exactly when a chain-id is set and the multisignature reads out of range; all pass exactly for gentxs that meet every invariant, signed in one of the two modes |
| `Runner.RunReports` | gentxvalidate/invariants.go:48-262 | every check decides its invariant, stated on rationals, integers, UTF-8 lengths, addresses and signed bytes; an unsupported mode never passes |
| `CheckedIsSigned.ChecksDecidePolicy` | gentxvalidate/invariants.go:49-172 | the bond and commission checks pass exactly when the launch's policy holds of the gentx's values |
| `CheckedIsSigned.DirectChecksDecideSignedPolicy` | gentxvalidate/invariants.go:49-172 | the checks pass exactly when the policy holds of the values a wire reader finds in the DIRECT sign bytes |
| `CheckedIsSigned.DirectCheckedIsSigned` | gentxvalidate/runner.go:34-41 | a passing DIRECT run has verified the key's signature over bytes that read back as a document meeting the policy, for this chain and account number zero, whose operator address is that of the very key it names |
| `CheckedIsSigned.AminoChecksDecideDocumentPolicy` | gentxvalidate/invariants.go:49-172 | the checks pass exactly when the policy holds of the strings in the amino document |
| `CheckedIsSigned.AminoCheckedIsSigned` | gentxvalidate/runner.go:34-41 | a passing amino run has verified one key, or at least threshold distinct members, over a canonical text whose document meets the policy, for this chain and account number zero, and names as operator the account of those keys |
| `CheckedIsSigned.PassedIsSigned` | gentxvalidate/runner.go:34-41 | whatever mode a passing gentx declares, it is one of the two, and the account's key or threshold members have signed bytes that hold the gentx's own fields for this chain and meet the policy |

## Left out

- `Decode` (gentxvalidate/decode.go): reflection-driven `encoding/json` unmarshalling and base64 decoding. The model starts
  from its outcome, a gentx or an error; strings are valid UTF-8, as `json.Unmarshal` returns them. Only one clause of
  `CheckedIsSigned.DirectCheckedIsSigned` uses what the decoder guarantees of a signer (`Gentx.AsDecoded`).
- Runner.RunChecks: starts from the outcome of `Decode`, which is a parameter.
- SHA-256, RIPEMD-160, secp256k1 and bech32 are parameters (`Library`, `Verifier`): functions of their arguments.
- The number path of `encoding/json` (token to float64 to token) is the parameter `norm`, with errors for tokens out of range.
  The normal form theorems ask of it what shortest float64 printing gives: it prints number tokens and prints its own output
  unchanged. The members of `AminoDocument` and `AminoTheorems` hold for every `norm`, since the document has no numbers.
- CanonicalJson.Marshal: what `json.Marshal` makes of the Go value, a text or an error, is a parameter.
- CanonicalJson.MarshalForSigning: what `json.Marshal` makes of the Go value, a text or an error, is a parameter.
- The nesting limit of Go's JSON decoder.
- Strings that are not valid UTF-8, and the replacement characters Go prints for them.
- In the amino document the already compact and escaped message text passes through `json.RawMessage` unchanged; the second
  compaction is not modelled as a step.
- Slice lengths, bit counts and field numbers are unbounded here; in Go they are 64-bit, and no list that fits in memory
  wraps around. Extra bits near the top of the range make Go's bit count wrap to a negative number, which differs from the
  member count just as the unbounded sum does.
- Byte operations (`byte(v)|0x80`, `v >>= 7`, `field<<3|wire`, a masked bit) are written as arithmetic, and Go's library
  calls (`strings.Cut`, `strings.TrimLeft`, `bytes.TrimSpace`, `sort.Strings`, `big.Int.SetString`, `strconv.FormatUint`,
  `binary.Uvarint`) as functions with Go's results.
- Error texts and `Result.Reason`; a failed check is its invariant's name and `false`.
- `CheckChainID`, `RunLight` and `AccountAddress`: each follows from one reading.
- The format of timestamps, the command-line and WebAssembly programs, the demo page and the fixture corpus.
