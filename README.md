# WebAuth token core in Dafny

This project models three pieces of the WebAuth single sign-on system:

- **The base64 codec of libwebauth** (`Base64`, in `base64.dfy`).
  - It covers the length formula, the 64-character tables, the encoder into a bounded output buffer, and the decoder.
  - The decoder checks groups of four characters and may run in place, with output and input in the same buffer.
  - The standard alphabet with `=` padding is used (section 4 of RFC 4648).
- **The token envelope of libwebauth** (`Token`, in `token.dfy`).
  - An attribute list is framed as `{hint 4}{nonce 16}{hmac 20}{attributes}{padding}`. Everything from the nonce on is encrypted with AES-CBC, and the result is base64 encoded.
  - `webauth_token_create` builds such a token; `webauth_token_parse` decodes, decrypts and checks one in place.
  - AES, HMAC-SHA1, the attribute-list codec and the key ring are collaborators. The model sees them only as function values in `Externals`, constrained by `Contracts` to what the C code relies on: in-place cipher, 20-byte digest, and an encoder that writes exactly its encoded length.
- **The Apache module's service-token logic** (`ServiceToken`, in `service_token.dfy`).
  - `MwaString` is the growable, terminated character buffer, with `init_string`, `append_string` and the curl callback `post_gather`.
  - `get_elem_text` and the tree walk of `parse_service_token_response` work over an abstract XML element tree.
  - The reuse rule of `mwa_get_service_token` decides when the token held in memory is handed out again.

Shared pieces:

- `errors.dfy` (`Errors`) holds the status codes (`NoRoom`, `Corrupt`, `NoMem`, `BadKey`, `BadHmac`), `Result`, `Option` and `byte`.
- `mem.dfy` (`Mem`) holds `memcpy`-like array copies and the sequence lemmas they need.

How the model is written:

- Each imperative C function is a Dafny method on arrays or on a class.
- Each method is proved against a specification function (`Encoding`, `Decoding`/`Outcome`, `CreateSpec`, `ParseSpec`, `JoinText`, `Response`, `Choice`). Lemmas then relate those functions to each other. One example is the round trip from create to parse.
- Where the C code is wrong, the model holds both versions:
  - a member that follows the code as written and exhibits the fault;
  - a corrected member, which the rest of the model uses.

Where the code differs from the system's design description, the model follows the code:

- Parse accepts a padding length byte of 0 (`PaddingValid`), although the design description says parse rejects it.
- The decoder returns at the first group holding `=`, and never reads the groups after it. The design description calls such a `=` corrupt.
- Create uses the constant nonce 1..16 as the HMAC key, and an all-zero IV. A fresh nonce used as the IV is only the design's intent.
- Parse uses the first key of the ring. The design describes a lookup by the hint.

## Model

| member | source | states |
|---|---|---|
| Base64.AlphabetInverse | src/libwebauth/base64.c:7-29 | index_64 inverts basis_64 on all 64 values, basis_64 is inverse to index_64 on every alphabet character, and '=' is not in the alphabet |
| Base64.EncodedLength | src/libwebauth/base64.c:32-36 | for n > 0 the length is a positive multiple of 4 whose groups of 4 hold between n and n + 2 bytes at 3 bytes a group |
| Base64.EncodeGroup | src/libwebauth/base64.c:55-86 | one group of 1 to 3 bytes gives four characters, the first two from the alphabet; the third is '=' exactly for one byte and the fourth exactly for fewer than three; the decoder's packing of the first two gives back the first byte |
| Base64.Encoding | src/libwebauth/base64.c:50-88 | the text of a non-empty input is exactly EncodedLength(n) characters long, and the empty input gives the empty text |
| Base64.EncodingChars | src/libwebauth/base64.c:55-86 | every character of the encoding is from basis_64 or is '=', and '=' fills exactly the last two places for one leftover byte, the last one for two, none otherwise |
| Base64.GroupChars | src/libwebauth/base64.c:55-86 | one group of 1 to 3 bytes encodes to alphabet characters followed by one '=' per missing byte |
| Base64.EncodingSplit | src/libwebauth/base64.c:50-88 | encoding works group by group: cutting the input at a multiple of 3 cuts the text at the matching multiple of 4 |
| Base64.EncodeStep | src/libwebauth/base64.c:50-88 | the group at input offset pos is written at text offset pos / 3 * 4, and it is the last group exactly when at most 3 bytes remain |
| Base64.PutGroup | src/libwebauth/base64.c:54-87 | the four stores of one group, each behind a room test: all four fit exactly when outLen + 4 <= outputMax, and the buffer holds the prefix of the encoding up to min(outLen + 4, outputMax) |
| Base64.EncodeAt | src/libwebauth/base64.c:50-88 | one loop iteration either writes its whole group and advances to the next, or ends with the room used up and an encoding that does not fit |
| Base64.Encode | src/libwebauth/base64.c:38-91 | with the room test before every store: Ok(EncodedLength(n)) exactly when the encoding fits in outputMax, NoRoom otherwise; the first min(EncodedLength(n), outputMax) bytes hold the encoding and nothing else in the buffer changes |
| Base64.Unpack | src/libwebauth/base64.c:125-137 | the decoder's bit packing of three 6-bit values into bytes undoes the encoder's, byte by byte |
| Base64.Quad | src/libwebauth/base64.c:115-137 | one group writes at most 3 bytes; a group that does not end decoding writes exactly 3; a corrupt group ends decoding; a group that ends decoding without error writes at least one byte |
| Base64.QuadRefuses | src/libwebauth/base64.c:115-127 | a group is refused before anything is written exactly when a character in position 1 or 2 is outside the alphabet or one in position 3 or 4 is neither in the alphabet nor '='; it is Corrupt exactly then or when '=' in position 3 is followed by a non-'='; it ends decoding exactly when refused or holding '=' |
| Base64.Decoding | src/libwebauth/base64.c:113-139 | decoding t writes at most 3 bytes per group of 4, and a non-empty text that is not corrupt yields at least one byte |
| Base64.Outcome | src/libwebauth/base64.c:124-138 | the decode succeeds exactly when the run is not corrupt and fits in the room, with the run's bytes; NoRoom exactly when the run needs more bytes than the room |
| Base64.BadGroupIsCorrupt | src/libwebauth/base64.c:113-123 | a group with a refused character, after any number of groups of alphabet characters and before anything at all, makes the decode Corrupt; the bytes written are exactly the 3 per group of those before it |
| Base64.MisplacedPadIsCorrupt | src/libwebauth/base64.c:124-127 | a group with '=' in position 3 and an alphabet character in position 4, after any number of groups of alphabet characters, makes the decode Corrupt after the 3 bytes per group before it and the first byte of that group |
| Base64.PaddedGroupEndsDecoding | src/libwebauth/base64.c:126-134 | the first group holding '=' in position 3 or 4 ends decoding: nothing after it affects the result |
| Base64.UnpaddedDecodesFully | src/libwebauth/base64.c:136-138 | a text of alphabet characters only is never corrupt and decodes to exactly 3 bytes a group |
| Base64.DecodeEncode | src/libwebauth/base64.c:125-137 | round trip: decoding the encoding of any non-empty byte string gives back exactly that string, without error |
| Base64.DecodeStores | src/libwebauth/base64.c:124-137 | the stores of one group after its character tests: each byte goes to the next output index behind its room test, stopping with NoRoom, Corrupt for '=' followed by a non-'=', a count after a padded group, or going on after 3 bytes |
| Base64.DecodeQuad | src/libwebauth/base64.c:115-137 | one loop iteration of the decoder: the character tests before any store, then the group's bytes that fit, with the stop condition and result Quad and the room give; only the three bytes from outLen may change |
| Base64.DecodeStep | src/libwebauth/base64.c:124-138 | how the whole run's result and written bytes follow from the next group: overflow gives NoRoom with the room filled, a last group gives the final result, otherwise decoding goes on with the group's bytes appended |
| Base64.DecodeOutcome | src/libwebauth/base64.c:124-138 | what one iteration's outcome means for the whole run: a stop carries the run's result, and the buffer holds what the run writes |
| Base64.DecodeAt | src/libwebauth/base64.c:113-139 | one iteration at offset i reads its four characters before writing, writes no further than i + 4, and leaves the unread input from i + 4 unchanged, so decoding in place is safe |
| Base64.Decode | src/libwebauth/base64.c:97-141 | for a positive multiple of 4 characters, even when output and input are the same buffer: the result is Outcome(Decoding(text), outputMax) as a byte count, and the output holds the bytes the decoder wrote before it stopped, with the rest unchanged |
| Base64.AsWrittenResult | src/libwebauth/base64.c:54-87 | the encoder as written succeeds exactly when the encoding without its '=' fits in outputMax |
| Base64.PutGroupAsWritten | src/libwebauth/base64.c:54-87 | the stores of one group as written: alphabet characters are tested for room, '=' stores are not, so a group of k bytes succeeds exactly when outLen + k + 1 <= outputMax |
| Base64.EncodeAtAsWritten | src/libwebauth/base64.c:50-88 | one iteration of the encoder as written fails only when a tested store finds the room used up |
| Base64.EncodeAsWritten | src/libwebauth/base64.c:38-91 | the encoder as written returns AsWrittenResult, and on success writes the whole encoding, beyond outputMax when the '=' do not fit |
| Base64.EncodeOverrun | src/libwebauth/base64.c:65-68 | one input byte with room 2: success with 4 characters, 2 past the room |
| Base64.EncodeOverrunAnyLength | src/libwebauth/base64.c:65-81 | for every input length that is not a multiple of 3 there is a room in which the encoder as written succeeds although the encoding does not fit |
| Token.BinaryEncodedLength | src/libwebauth/token.c:28-57 | the padding is between 1 and 16, the least positive count that makes nonce, HMAC, attributes and padding whole AES blocks; it is a full block exactly when attributes + 36 is a multiple of 16; the length is hint + nonce + HMAC + attributes + padding, and that length minus 4 is a multiple of 16 |
| Token.TokenEncodedLength | src/libwebauth/token.c:59-69 | for a non-empty list, the token length is the base64 length of the binary length: a positive multiple of 4 whose groups hold the binary token |
| Token.BigEndian32 | src/libwebauth/token.c:124 | the hint is the creation time taken modulo 2^32, most significant byte first |
| Token.CreateSpec | src/libwebauth/token.c:98-182 | no best key gives BadKey; a success had a best key the cipher accepted, malloc succeeding, and a base64 length within max_output_len |
| Token.Padding | src/libwebauth/token.c:150-152 | the padding is plen bytes, each equal to plen |
| Token.PutPadding | src/libwebauth/token.c:150-153 | the padding loop writes plen at the plen positions from at, and nothing else |
| Token.PutPlaintext | src/libwebauth/token.c:124-163 | the buffer holds the hint at 0, the constant nonce at 4, the HMAC keyed with the nonce over exactly the attributes and padding at 20, the attributes at 40, then the padding |
| Token.Seal | src/libwebauth/token.c:169-173 | everything after the 4-byte hint is replaced by its encryption, and the hint is kept |
| Token.Create | src/libwebauth/token.c:74-182 | the result is CreateSpec: BadKey for no key or a refused key, then NoRoom when the base64 length exceeds the room, then NoMem, then an encoder error, all with the output untouched; on success the text fills the front of the output and its length is returned |
| Token.CreatedLength | src/libwebauth/token.c:110-115 | the text create returns is exactly TokenEncodedLength long and fits in max_output_len |
| Token.CreatedText | src/libwebauth/token.c:141-176 | the text create returns is the base64 encoding of the binary token built with the best key and the encoded attributes |
| Token.PaddingValid | src/libwebauth/token.c:262-272 | corrected: the padding is valid exactly when its length byte is at most 16 and at most the bytes after the HMAC, and the token ends with create's padding of that length |
| Token.PaddingValidAsWritten | src/libwebauth/token.c:262-272 | as written: the padding is valid exactly when its length byte is below 16 and at most the whole token, and the token ends with create's padding of that length |
| Token.CheckPadding | src/libwebauth/token.c:262-272 | the corrected padding check: Ok with the last byte exactly when it is at most 16, at most the bytes after the HMAC, and each of the last plen bytes equals it; Corrupt otherwise |
| Token.CheckPaddingAsWritten | src/libwebauth/token.c:262-272 | the padding check as written: Ok exactly when the last byte is below 16, at most elen, and the last plen bytes equal it |
| Token.FullBlockPaddingRejected | src/libwebauth/token.c:263-266 | a token ending in a full block of 16 bytes 16 passes the corrected check and fails the check as written |
| Token.AlignedTokenRejectedAsWritten | src/libwebauth/token.c:43-48 | for attributes with attributes + 36 a multiple of 16, create pads with a full block, and the decrypted token passes the corrected check but not the check as written |
| Token.PaddingOverlapAsWritten | src/libwebauth/token.c:263-274 | a 44-byte token of bytes 10 passes the length test as written, which leaves a negative attribute length elen - 40 - plen |
| Token.Unseal | src/libwebauth/token.c:252-274 | corrected: BadHmac whenever the stored HMAC is not the one keyed with the nonce over everything from offset 40; a success had both the HMAC and the corrected padding valid and is the attribute decoder's result on the bytes between HMAC and padding |
| Token.Verify | src/libwebauth/token.c:252-274 | with the padding check corrected, on the decrypted token: BadHmac unless the stored HMAC is the one over all bytes from offset 40, keyed with the nonce at offset 4; then Corrupt unless the padding is valid; then the attribute decoder's verdict on the bytes between HMAC and padding |
| Token.Open | src/libwebauth/token.c:241-274 | everything after the hint is decrypted in place and the result is Verify's (corrected) verdict on it |
| Token.ParseSpec | src/libwebauth/token.c:216-274 | corrected: the buffer keeps its length and everything past the text; an empty ring gives BadKey with the buffer untouched; a success came from a text that decodes without error to at least the 40 fixed bytes, and the buffer starts with the decoded hint |
| Token.Parse | src/libwebauth/token.c:197-275 | with the minimum length test the C code lacks and the corrected padding check: the result and the buffer are as ParseSpec says, BadKey for an empty ring or a refused first key, then a base64 error as it is, then Corrupt for a token shorter than the fixed fields, then HMAC, padding and attributes |
| Token.ParseDecoded | src/libwebauth/token.c:229-245 | once the text decodes to a token holding the fixed fields, parse's result is the verdict on that token decrypted with the first key |
| Token.DecodeText | src/libwebauth/token.c:230-233 | the in-place base64 decode in parse gives back the binary token that was encoded |
| Token.BinaryLength | src/libwebauth/token.c:37-53 | the binary token is exactly as long as binary_encoded_length says, and its encrypted part is a whole number of AES blocks |
| Token.OpenBinary | src/libwebauth/token.c:241-245 | decrypting what create encrypted, with the same key, restores hint and plaintext |
| Token.UnsealPlaintext | src/libwebauth/token.c:252-274 | parse's HMAC region, elen - 40 bytes from offset 40, is create's alen + plen region; the HMAC matches, the padding is valid, and what is left is the encoded attributes |
| Token.BinaryRoundTrip | src/libwebauth/token.c:229-274 | parsing the text of a binary token built with the first key of the ring gives the attribute decoder's result on the encoded attributes |
| Token.CreateParseRoundTrip | src/libwebauth/token.c:197-275 | round trip: parsing, with the first key of the ring, the text create makes with that key gives back the attribute list, when the cipher and the attribute codec invert themselves |
| Token.UnsealAsWritten | src/libwebauth/token.c:252-274 | as written: never a negative cipher or HMAC length; the attribute decoder is handed a negative length exactly when the HMAC matches, the padding passes the check as written and is longer than the bytes after the HMAC, and that length is elen - 40 - plen |
| Token.ParseSpecAsWritten | src/libwebauth/token.c:216-274 | as written: an empty ring gives BadKey; the cipher and HMAC are handed negative lengths only for a text that decodes without error to fewer than 40 bytes, namely elen - 4 and elen - 40; any length handed to the attribute decoder that is reported is negative |
| Token.UnsealAgreesAsWritten | src/libwebauth/token.c:252-274 | where the padding length is below a block and within the bytes after the HMAC, the checks as written and the corrected checks give the same verdict |
| Token.ShortTokenNegativeLengths | src/libwebauth/token.c:230-255 | the text "AAAA" decodes without error to 3 bytes, and parse as written goes on to hand the cipher -1 bytes and the HMAC -37 bytes |
| Token.AlignedParseAsWritten | src/libwebauth/token.c:252-266 | parse as written refuses with Corrupt every token create builds for attributes whose length plus 36 is a multiple of 16: the HMAC matches, and the full block of padding fails the length test |
| Token.PaddingOverlapReachesDecoder | src/libwebauth/token.c:263-274 | a decrypted 44-byte token ending in ten bytes 10 whose HMAC matches passes the checks as written and hands the attribute decoder -6 bytes; the corrected checks call it Corrupt |
| Token.ShortTokenCorrupt | src/libwebauth/token.c:230-245 | the corrected parse turns the text "AAAA" into Corrupt before the cipher is reached |
| ServiceToken.Strlen | src/modules/webauth/service_token.c:232-233 | the length is the count of characters before the first terminator, or all of them when there is none |
| ServiceToken.NeedsGrowth | src/modules/webauth/service_token.c:237-239 | corrected: the buffer is kept exactly when there is one and it holds the characters and their terminator |
| ServiceToken.NeedsGrowthAsWritten | src/modules/webauth/service_token.c:237 | as written: it grows only where the corrected test grows, and it keeps a buffer that the text fills exactly |
| ServiceToken.GrownCapacity | src/modules/webauth/service_token.c:239-240 | the capacity grows from the old one in whole 4096-character chunks to the least such value that holds needed + 1 characters |
| ServiceToken.MwaString.constructor | src/modules/webauth/service_token.c:219-223 | init_string: no buffer, size 0, capacity 0, the pool recorded, empty contents |
| ServiceToken.Reallocate | src/modules/webauth/service_token.c:237-249 | the capacity is GrownCapacity of the old one, and a fresh buffer that long receives the size characters held |
| ServiceToken.PutText | src/modules/webauth/service_token.c:250-253 | the new characters follow the old text and the terminator follows them |
| ServiceToken.MwaString.Append | src/modules/webauth/service_token.c:228-254 | with the growth test corrected to `>=`: the contents are the old contents followed by in_size characters (strlen(in_data) when in_size is 0), the size grows by that many, the buffer is replaced by a fresh one of GrownCapacity exactly when there is no buffer or the terminator would not fit, and the terminator follows the text |
| ServiceToken.TerminatorStoreAsWritten | src/modules/webauth/service_token.c:235-253 | as written, the terminator goes to index size + n of a buffer at least as long as before; a buffer grown, or made where there was none, has room for it |
| ServiceToken.TerminatorOutsideAsWritten | src/modules/webauth/service_token.c:235-253 | append_string as written stores the terminator outside the buffer exactly when a buffer is held and the new text fills it to its last character |
| ServiceToken.GrowthTests | src/modules/webauth/service_token.c:237-239 | the corrected test leaves room for the terminator, and it differs from the test as written only when the text exactly fills the buffer |
| ServiceToken.TerminatorOverflowAsWritten | src/modules/webauth/service_token.c:237-253 | 4095 characters held in 4096 and one appended: as written the terminator is stored at index 4096 of a buffer still 4096 long, where the corrected test grows the buffer |
| ServiceToken.PostGather | src/modules/webauth/service_token.c:259-266 | post_gather appends size * nmemb characters (strlen of the data when that is 0) and returns size * nmemb |
| ServiceToken.JoinTextAppend | src/modules/webauth/service_token.c:349-351 | joining text pieces works piece by piece: the text of a + b is the text of a followed by the text of b |
| ServiceToken.JoinTextHasNoTerminator | src/modules/webauth/service_token.c:349-352 | the joined text holds no terminator, so the C string returned is all of it |
| ServiceToken.ElemText | src/modules/webauth/service_token.c:342-355 | def when the first piece is missing or has no text; otherwise some text that starts with the first piece's C string and holds no terminator |
| ServiceToken.GetElemText | src/modules/webauth/service_token.c:342-355 | the in-order concatenation of all text pieces when the first piece has text, and def otherwise |
| ServiceToken.Field | src/modules/webauth/service_token.c:434-447 | a field no child of <token> is named for stays NULL |
| ServiceToken.OtherChildIgnored | src/modules/webauth/service_token.c:441-446 | a child of <token> with another name changes no field, wherever it stands and whatever its text pieces; only the children of the field's own name need complete text |
| ServiceToken.LastChildWins | src/modules/webauth/service_token.c:434-447 | with complete text asked only of the children so named: a later child of the same name overwrites an earlier one: the field is the text of the last child so named, even when that text is absent |
| ServiceToken.FieldFound | src/modules/webauth/service_token.c:434-447 | with complete text asked only of the children so named, a field that is found is the text of some child so named |
| ServiceToken.ParseServiceTokenResponse | src/modules/webauth/service_token.c:403-458 | for any tree whose children of <token> named sessionKey, expires or tokenData have complete text (children of other names are unrestricted), the result is Response(root): nothing for an error response, an unknown root, a missing <tokens> or <token>, or a missing field; otherwise the three texts |
| ServiceToken.Response | src/modules/webauth/service_token.c:403-458 | nothing unless the tree has the getTokensResponse/tokens/token shape; an accepted response carries the three fields the loop over <token> leaves |
| ServiceToken.ResponseAccepted | src/modules/webauth/service_token.c:403-458 | with the same requirement on the three named children only, an accepted response has root getTokensResponse, first child tokens, its first child token, and a child of each required name whose text is the value taken |
| ServiceToken.RefusedRoot | src/modules/webauth/service_token.c:405-413 | an errorResponse, or any root other than getTokensResponse, is refused |
| ServiceToken.StillFresh | src/modules/webauth/service_token.c:633-634 | a token in memory is reused exactly when now is more than 3600 seconds before its expiry, so a reused token has not expired |
| ServiceToken.Choice | src/modules/webauth/service_token.c:633-657 | the token in memory is chosen exactly when it expires more than 3600 seconds after now; otherwise the cached token exactly when there is one, otherwise the requested one exactly when there is one, and failure with no token exactly when there is neither |
| ServiceToken.FreshTokenNeedsNoIo | src/modules/webauth/service_token.c:633-636 | with a fresh token in memory the answer does not depend on what the cache or the WebKDC would give |
| ServiceToken.TokenHolder.Get | src/modules/webauth/service_token.c:626-657 | the answer and its source are as Choice says; a token from the cache or from a request becomes the current one, and on failure the current token is kept |

## Left out

- `src/libwebauth/krb5.c` is not part of this model. It is a wrapper over the Kerberos library whose branches depend on its return codes.
- AES-CBC, HMAC-SHA1, `webauth_attrs_*` and `webauth_key_ring_best_encryption_key` are not modelled inside. They are function values in `Token.Externals`. The round-trip lemmas assume only that decryption undoes encryption of whole blocks with the same key (`CipherInverts`) and that the attribute decoder undoes the encoder (`AttrsInvert`).
- `time(NULL)` is the parameter `now`, and the outcome of `malloc` is the parameter `allocFails`. Pool allocation (`apr_palloc`) is taken to succeed.
- Base64.Basis and Base64.Index64 state `basis_64` and `index_64` as range conditions rather than 64- and 256-entry tables. `AlphabetInverse` relates the two.
- Base64.Decode: the final `return WA_ERR_NO_ROOM` after the loop (`base64.c:140`) cannot be reached for an input length that is a positive multiple of 4, because the last group always returns. The model's loop ends with the byte count instead.
- Base64.Decode, Token.Parse: the requirement that the input length is a positive multiple of 4 comes from the decoder's `assert` (`base64.c:110`). It is a precondition here.
- Token.Parse uses only the first key of the ring and ignores the hint, as the C code does. The comparison of the HMACs is modelled as an equality, not as `memcmp` timing.
- Token.Parse: the asserts at the head of `webauth_token_parse` are not modelled. `assert (key != NULL)` at `token.c:212` reads `key` before line 223 assigns it, which is undefined behaviour in a build with assertions enabled.
- Token.ParseSpecAsWritten stops at the first call handed a negative length (`NegativeMac`, `NegativeAttrs`), because what the cipher, the HMAC or the attribute decoder do then is undefined.
- Base64.EncodeAsWritten requires an output array at least `outputMax + 2` long, so that the up to two unchecked '=' stores land inside it. In the C code a caller's buffer may be exactly `output_max` long, and then those stores are writes past its end. The model shows where they land (`EncodeOverrun`), not what an out-of-bounds write does.
- Token.Create: the C function returns the count or a negative error as one `int`. The model returns a `Result`. The attribute encoder's error is passed on as its status.
- Everything is unbounded integers. The model does not capture C `int` and `size_t` widths: `needed_size`, `size * nmemb` cast to `int`, and the `int` lengths of the codecs.
- ServiceToken.PostGather does not model the conversion of `size * nmemb` to `int`, which can truncate or turn negative for very large chunks.
- ServiceToken.GetElemText requires that every piece has text once the first has, because `strlen` of a missing text is undefined in the C code. The response walk asks this only of the children named sessionKey, expires or tokenData, the only ones handed to `get_elem_text`. The XML tree is an abstract datatype; the `apr_xml` parser is not part of this model.
- ServiceToken.ParseServiceTokenResponse stops at the three texts. The later `apr_base64_decode` of the session key, `atoi` of the expiry, and `new_service_token` are not part of this model.
- ServiceToken.TokenHolder.Get takes the outcomes of `read_service_token_cache` and `request_service_token` as parameters. It does not model the cache file, curl (`post_to_webkdc`), the cache write or `get_app_state`. It also does not model the missing locking of the global token; the holder is a single-threaded object.
- `log_error_response` and all logging are left out; they only produce messages.

## Findings

| source | as written | input that shows it | evidently intended | confidence | as-written member | corrected member |
|---|---|---|---|---|---|---|
| src/libwebauth/base64.c:65-81 | the `=` stores are not preceded by the `out_len == output_max` test, so the encoder reports success while writing up to two bytes past `output_max` | one input byte, `output_max` 2: success with "AA==", 4 bytes written | every store tests for room, and NoRoom whenever the encoding does not fit | not executed | Base64.EncodeAsWritten, Base64.EncodeOverrun, Base64.EncodeOverrunAnyLength | Base64.Encode |
| src/libwebauth/token.c:264 | parse rejects a padding length of 16 (`plen >= AES_BLOCK_SIZE`), but create emits 16 when attributes + 36 is a multiple of 16 (`token.c:43-48`) | attributes of 12 bytes: create pads with 16 bytes 16, and parse returns Corrupt | accept a padding length of 1 to 16 | not executed | Token.PaddingValidAsWritten, Token.CheckPaddingAsWritten, Token.AlignedTokenRejectedAsWritten, Token.AlignedParseAsWritten | Token.CheckPadding, Token.PaddingValid, Token.Unseal, Token.Verify, Token.Parse, Token.CreateParseRoundTrip |
| src/libwebauth/token.c:264 | the padding length is bounded by `elen`, not by the `elen - 40` bytes after the HMAC, so it can reach back over the HMAC | a decrypted 44-byte token ending in ten bytes 10 whose HMAC matches: the check passes and `elen - 40 - plen` is -6 | bound the padding by `elen - 40` | not executed | Token.PaddingValidAsWritten, Token.UnsealAsWritten, Token.PaddingOverlapAsWritten, Token.PaddingOverlapReachesDecoder | Token.CheckPadding, Token.PaddingValid, Token.Unseal, Token.Verify |
| src/libwebauth/token.c:241-255 | no minimum length is tested before the fixed-offset cipher and HMAC calls | the text "AAAA" decodes to 3 bytes, giving lengths -1 and -37 | Corrupt for a token shorter than 40 bytes | not executed | Token.ParseSpecAsWritten, Token.ShortTokenNegativeLengths | Token.ParseSpec, Token.Parse, Token.ShortTokenCorrupt |
| src/modules/webauth/service_token.c:237 | the growth test is `needed_size > capacity`, so a text that exactly fills the buffer skips the growth, and the terminator store at line 253 is one past the buffer | 4095 characters in a 4096-character buffer, one more appended | grow when `needed_size >= capacity` | not executed | ServiceToken.NeedsGrowthAsWritten, ServiceToken.TerminatorStoreAsWritten, ServiceToken.TerminatorOutsideAsWritten, ServiceToken.TerminatorOverflowAsWritten | ServiceToken.NeedsGrowth, ServiceToken.MwaString.Append, ServiceToken.GrowthTests |
