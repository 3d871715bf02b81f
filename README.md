# ciphr transforms, modelled in Dafny

This project models the core of `Ciphr::Functions`, the part of ciphr that names and runs its stream transforms. It covers:

- **The registry.** `register` appends a class. `setup` flattens every class's variant list into a table from alias to `[class, option fragment]`, and a later variant overwrites an earlier one. `Functions[name]` looks a name up. The model includes the variant lists the classes declare, in the order the `inherited` hook registers them.
- **`Cipher.variants`.** The OpenSSL cipher names are lower-cased and de-duplicated, keeping first occurrences. Each one's alias is the name with every `-` removed.
- **The pull procs.** Each proc reads a fixed-size group from its input, converts it, and returns it. It returns `nil` once the input is exhausted. This covers Cat and the Base64, Base16, Base8 and Base2 codecs in both directions.
- **The state machines in the other procs:**
  - The Digest and HMAC procs digest the whole input eagerly, then hand the digest out once.
  - `StringReader::StringProc#call` hands its string out once.
  - The Cipher proc calls `update` on every chunk and `final` on the first `nil`. It clears its context even when `final` raises, and returns `nil` from then on.
  - The XOR proc reads the whole key, then XORs one key-sized input chunk per call.

Bytes are integers `0..255` and strings are byte sequences; text such as hex or base64 digits is ASCII codes. Ruby's `nil` is `None`, and an exception is the `Failure` of a `Result`.

An upstream `read(n)` is a `Streams.Readable` object. It is the bytes still to deliver: each `read(n)` hands out the next `min(n, rest)` bytes, then `nil` forever. A `read` with no size hands out everything left, in one piece; "## Left out" says what this assumes.

The OpenSSL primitives are function-typed fields of a `Crypto.Suite` value, so every property holds for any implementation of them:

- whether a digest or cipher name is known;
- the digest or HMAC of the chunks fed;
- whether a key fits a cipher;
- a cipher's `update` and `final`.

## Model

| member | source | states |
|---|---|---|
| Registry.Functions.Register | lib/ciphr/functions.rb:12-14 | `register` appends the class to the class list and leaves the table alone |
| Registry.Functions.Setup | lib/ciphr/functions.rb:16-19 | `setup` replaces the table with the one built from the class list, and raises NoMethodError, leaving the table as it was, when a variant is `nil` |
| Registry.Build | lib/ciphr/functions.rb:16-19 | the table `setup` assigns: NoMethodError when a variant is `nil`, else the hash of the name-entry pairs; LookupIsLastMention and UnmentionedIsAbsent state what it maps |
| Registry.HashOf | lib/ciphr/functions.rb:18 | `Hash[pairs]`; HashOfLastWins states that a key maps to the value of its last pair |
| Registry.Functions.Lookup | lib/ciphr/functions.rb:21-23 | `Functions[name]`, the table's entry or `nil`; RegisterAndLookup states what it returns after `setup` |
| Registry.ClassVariants | lib/ciphr/functions.rb:17 | the first `flat_map`: each class's variants, paired with the class, in registration order; ClassVariantsIndexable and LookupIsLastMention state its use |
| Registry.NamePairs | lib/ciphr/functions.rb:18 | the inner block of the second `flat_map`: each name of `[v[0]].flatten` paired with `[c, v[1]]`; LookupIsLastMention states its use |
| Registry.Pairs | lib/ciphr/functions.rb:18 | the second `flat_map`: the name-entry pairs of all variants, in order; HashOfLastWins and LookupIsLastMention state what `Hash[]` of them maps |
| Registry.HashOfAppend | lib/ciphr/functions.rb:18 | `Hash[a + b]` is `Hash[a]` overwritten by `Hash[b]` |
| Registry.HashOfLastWins | lib/ciphr/functions.rb:18 | `Hash[pairs]` has a key exactly when some pair does, and then holds the value of the last such pair |
| Registry.ClassVariantsIndexable | lib/ciphr/functions.rb:17-18 | `v[0]`/`v[1]` can be taken of every tagged variant exactly when no class declares a `nil` variant |
| Registry.LookupIsLastMention | lib/ciphr/functions.rb:16-23 | `setup` succeeds exactly when no variant is `nil`, and then every name looks up to the class and fragment of the last variant that mentions it (as a single name or inside a nested name list), or to `nil` |
| Registry.UnmentionedIsAbsent | lib/ciphr/functions.rb:16-23 | a name looks up to `nil` exactly when no variant of any class mentions it |
| Registry.RegisterAndLookup | lib/ciphr/functions.rb:9-39 | registering the classes in order, then `setup`, then `Functions[name]` gives the last variant that mentions the name, or NoMethodError when a variant is `nil` |
| Values.FlattenLeaves | lib/ciphr/functions.rb:18 | `[v[0]].flatten` leaves no array behind and keeps a non-array value as it is |
| Values.Index | lib/ciphr/functions.rb:18 | `v[0]`/`v[1]` on a non-`nil` variant: an Array's element, a String's one-character substring, or `nil`; ClassVariantsIndexable states when it can be taken |
| Catalogue.DigestLookup | lib/ciphr/functions.rb:72-77 | among Digest's variants, each name of `OPENSSL_DIGESTS` maps to Digest with `{variant: name}` and no other name maps |
| Catalogue.HmacLookup | lib/ciphr/functions.rb:98-101 | among HMAC's variants, exactly the names `hmac<d>` map, each to HMAC with `{variant: d}` |
| Catalogue.CatLookup | lib/ciphr/functions.rb:55-58 | among Cat's variants as declared, `cat` maps to the fragment `'noop'` and `nil` maps to the fragment `nil` |
| Catalogue.AliasVariantLookup | lib/ciphr/functions.rb:144-146 | a one-variant class with an alias list maps exactly those aliases, each to the class with `{}` |
| Catalogue.BaseKindsLookup | lib/ciphr/functions.rb:123-226 | the codec classes map their alias lists to Base64, Base16, Base8 or Base2 with `{}` |
| Catalogue.FunctionKindsLookup | lib/ciphr/functions.rb:50-121 | the classes up to HMAC map exactly the names of Cat, the digests and the HMACs |
| Catalogue.BeforeCipherLookup | lib/ciphr/functions.rb:50-226 | the classes registered before Cipher give every name the entry of `TableBeforeCipher` |
| Catalogue.AfterCipherLookup | lib/ciphr/functions.rb:264-332 | of the classes registered after Cipher, only XOR declares a variant, and it maps only `xor` |
| Catalogue.LastMentionAppend | lib/ciphr/functions.rb:17-18 | a name takes its entry from the later of two runs of classes when that run mentions it |
| Catalogue.DeclaredLookup | lib/ciphr/functions.rb:16-288 | `setup` over the declared classes succeeds for every cipher list; `xor` maps to XOR, a cipher alias to its cipher, every other name as the earlier classes give it |
| Catalogue.DeclaredXor | lib/ciphr/functions.rb:281-283 | `xor` looks up to XOR with `{}`, whatever cipher names OpenSSL lists |
| Catalogue.DeclaredCipherAlias | lib/ciphr/functions.rb:252-256 | a cipher alias looks up to Cipher with the last lower-cased OpenSSL name that has that alias |
| Catalogue.DeclaredNonCipherName | lib/ciphr/functions.rb:16-23 | a name that is neither `xor` nor a cipher alias looks up as the classes before Cipher give it |
| Catalogue.DeclaredDigest | lib/ciphr/functions.rb:72-101 | each digest name looks up to Digest and `hmac<d>` to HMAC, both with `{variant: d}`, unless a cipher alias takes the name |
| Catalogue.DeclaredBase2 | lib/ciphr/functions.rb:203-206 | every Base2 alias, `b2` listed twice included, looks up to Base2 with `{}` |
| Catalogue.DeclaredNilKey | lib/ciphr/functions.rb:56-58 | `nil` is a key of the table, registered for Cat by its bare `{}` variant |
| Catalogue.CatAsDeclared | lib/ciphr/functions.rb:55-58 | as declared, `cat` looks up to Cat with the fragment `'noop'`, `noop` looks up to `nil`, and `nil` looks up to Cat |
| Catalogue.IntendedCatLookup | lib/ciphr/functions.rb:56-58 | with the outer list, `cat` and `noop` both look up to Cat with `{}`, and `nil` is not registered |
| CipherNames.DowncaseSpec | lib/ciphr/functions.rb:253 | `downcase` keeps the length, lower-cases every ASCII capital and changes no other character |
| CipherNames.Downcase | lib/ciphr/functions.rb:253 | `c.downcase` on ASCII; DowncaseSpec and DowncaseIdempotent state its meaning |
| CipherNames.DowncaseAllSpec | lib/ciphr/functions.rb:253 | mapping `downcase` over the names keeps the number of names and lower-cases each one in place |
| CipherNames.DowncaseAll | lib/ciphr/functions.rb:253 | mapping `downcase` over the names; DowncaseAllSpec states its meaning |
| CipherNames.DowncaseIdempotent | lib/ciphr/functions.rb:253 | lower-casing twice is lower-casing once |
| CipherNames.UniqElements | lib/ciphr/functions.rb:253 | `uniq` keeps exactly the elements of its input |
| CipherNames.UniqDistinct | lib/ciphr/functions.rb:253 | `uniq` returns no element twice |
| CipherNames.UniqFirstOrder | lib/ciphr/functions.rb:253 | `uniq` lists the elements in the order of their first occurrences |
| CipherNames.Uniq | lib/ciphr/functions.rb:253 | `uniq`; UniqElements, UniqDistinct and UniqFirstOrder state that it keeps each element once, in the order of first occurrence |
| CipherNames.StripDashSpec | lib/ciphr/functions.rb:254 | an alias has no `-`, keeps every other character with its count, and is the name itself when the name has no `-` |
| CipherNames.StripDashAppend | lib/ciphr/functions.rb:254 | removing `-` from joined strings is removing it from each part, so the kept characters stay in their order |
| CipherNames.StripDashChar | lib/ciphr/functions.rb:254 | a single character is dropped exactly when it is `-`; with StripDashAppend this fixes the alias of every name |
| CipherNames.StripDash | lib/ciphr/functions.rb:254 | `gsub(/-/, "")`; StripDashSpec, StripDashAppend and StripDashChar state its meaning |
| CipherNames.VariantsOfNotNil | lib/ciphr/functions.rb:253-255 | there is one variant `[alias, {variant: c}]` per de-duplicated lower-cased name `c`, in order |
| CipherNames.CipherVariant | lib/ciphr/functions.rb:253-255 | the block of the last `map`: `[alias, {variant: c}]`; VariantsOfCons and StripDashSpec state its parts |
| CipherNames.VariantsOf | lib/ciphr/functions.rb:253-255 | the outer `map` with that block; VariantsOfNotNil states its shape |
| CipherNames.CipherAliasAbsent | lib/ciphr/functions.rb:252-256 | a value that is nobody's alias is not mapped by the cipher variants |
| CipherNames.CipherAliasLast | lib/ciphr/functions.rb:252-256 | an alias maps, among the cipher variants, to `{variant: c}` for the last name `c` that has it |
| CipherNames.Variants | lib/ciphr/functions.rb:252-256 | `Cipher.variants` for the names OpenSSL lists; VariantsOfNotNil, CipherAliasAbsent and CipherAliasLast state its shape and what each alias maps to |
| Streams.Head | lib/ciphr/functions.rb:45-47 | `read(n)` gives `nil` exactly at the end, and otherwise a non-empty prefix of the rest that is `n` long unless less is left |
| Streams.HeadRestSplit | lib/ciphr/functions.rb:45-47 | reading `n` bytes at a time delivers exactly the `n`-byte groups of the data |
| Streams.Readable.Read | lib/ciphr/functions.rb:45-47 | `read(n)` returns the next group and removes it from what is left |
| Streams.Readable.ReadAll | lib/ciphr/functions.rb:45-47 | `read` with no size returns everything left, `nil` when nothing is, and leaves nothing |
| Bytes.SplitConcat | lib/ciphr/functions.rb:86-88 | joining the chunks read back gives the bytes they were read from |
| Bytes.SplitShape | lib/ciphr/functions.rb:86-88 | every chunk read is non-empty and at most `n` long, and all but the last are exactly `n` long |
| Pulls.Pull | lib/ciphr/functions.rb:64-226 | a codec or Cat proc returns `nil` exactly when its input is exhausted |
| Pulls.GroupSize | lib/ciphr/functions.rb:64-226 | the positive size each proc passes to `read`: 256 for Cat; 3 to encode and 4 to decode Base64; 1 and 2 for Base16; 1 and 3 for Base8; 1 and 8 for Base2 |
| Pulls.Convert | lib/ciphr/functions.rb:64-226 | what a proc returns for one group it read; the codec round-trip lemmas and the Base16 and Base2 stream lemmas state its meaning |
| Pulls.Output | lib/ciphr/functions.rb:64-226 | the joined results of calling a proc until `nil`; Drain ties the method to it and the RoundTrip lemmas state its meaning |
| Pulls.ChunkProc.Call | lib/ciphr/functions.rb:64-226 | one call reads one group of the proc's size and returns its conversion, or `nil` |
| Pulls.Drain | lib/ciphr/functions.rb:64-226 | calling a proc until its first `nil` returns the joined conversions of the input's groups |
| Pulls.RoundTrip | lib/ciphr/functions.rb:127-226 | a decoder undoes an encoder on whole streams when each encoded group is exactly one decoder group that decodes back |
| Pulls.CatIdentity | lib/ciphr/functions.rb:64-69 | Cat returns its input unchanged |
| Pulls.Base64RoundTrip | lib/ciphr/functions.rb:128-142 | Base64 decoding undoes Base64 encoding on every byte stream |
| Pulls.Base64Length | lib/ciphr/functions.rb:130-134 | Base64 encoding writes four characters per group of up to three bytes |
| Pulls.Base16EncodeStream | lib/ciphr/functions.rb:164-168 | the Base16 encode proc, drained, gives `unpack("H*")` of the whole input |
| Pulls.Base16DecodeStream | lib/ciphr/functions.rb:169-173 | the Base16 decode proc, drained, gives `pack("H*")` of the whole input |
| Pulls.Base16RoundTrip | lib/ciphr/functions.rb:162-175 | Base16 decoding undoes Base16 encoding, and encoding doubles the length |
| Pulls.Base16Inverse | lib/ciphr/functions.rb:162-175 | Base16 encoding undoes Base16 decoding of an even number of lower-case hex digits |
| Pulls.Base2EncodeStream | lib/ciphr/functions.rb:214-218 | the Base2 encode proc, drained, gives `unpack("B*")` of the whole input |
| Pulls.Base2DecodeStream | lib/ciphr/functions.rb:219-223 | the Base2 decode proc, drained, gives `pack("B*")` of the whole input |
| Pulls.Base2RoundTrip | lib/ciphr/functions.rb:212-225 | Base2 decoding undoes Base2 encoding, and encoding multiplies the length by eight |
| Pulls.Base2Inverse | lib/ciphr/functions.rb:212-225 | Base2 encoding undoes Base2 decoding of whole octets of `0`/`1` |
| Pulls.Base8ForwardIdentity | lib/ciphr/functions.rb:189-193 | the Base8 forward proc as written returns its input unchanged |
| Pulls.Base8NotInverse | lib/ciphr/functions.rb:187-200 | as written, Base8 decoding of Base8 encoding turns `A` into a zero byte |
| Pulls.OctalRoundTrip | lib/ciphr/functions.rb:187-200 | the intended Base8 pair, three octal digits per byte and back, is the identity on every byte stream |
| Base64Codec.AlphabetInverse | lib/ciphr/functions.rb:133 | the RFC 4648 alphabet is a bijection between sextets and the 64 characters |
| Base64Codec.StripSpace | lib/ciphr/functions.rb:133 | `gsub(/\s/, '')` leaves no whitespace, never lengthens, and keeps a string without whitespace as it is |
| Base64Codec.StripSpaceAppend | lib/ciphr/functions.rb:133 | removing whitespace commutes with joining |
| Base64Codec.EncodeGroup | lib/ciphr/functions.rb:133 | a quantum is four characters with no whitespace, `=` exactly in the positions past the bytes given |
| Base64Codec.Encode64 | lib/ciphr/functions.rb:133 | `Base64.encode64` of one group: the quantum and a newline; EncodeStepShape states what is left after `gsub` |
| Base64Codec.EncodeStep | lib/ciphr/functions.rb:132-133 | one encode call; EncodeStepShape and StepRoundTrip state its meaning |
| Base64Codec.EncodeStepShape | lib/ciphr/functions.rb:132-133 | an encode step is the quantum without its newline: four characters, none whitespace, a short group `=`-padded |
| Base64Codec.Padded | lib/ciphr/functions.rb:138 | re-padding makes four characters, keeps the group and fills the rest with `=` |
| Base64Codec.DecodeGroup | lib/ciphr/functions.rb:139 | `decode64` of a quantum gives back its one to three bytes |
| Base64Codec.Unpack | lib/ciphr/functions.rb:139 | `decode64`'s lenient decoding, skipping non-alphabet characters, skipping `=` until two sextets of a quantum are collected and then ending the data; DecodeGroup states its result on a quantum |
| Base64Codec.Decode64 | lib/ciphr/functions.rb:139 | `Base64.decode64`; DecodeGroup and UnpaddedGroup state its meaning |
| Base64Codec.DecodeStep | lib/ciphr/functions.rb:136-139 | one decode call, re-padding then decoding; StepRoundTrip states that it inverts EncodeStep |
| Base64Codec.StepRoundTrip | lib/ciphr/functions.rb:136-139 | a decode step inverts an encode step |
| Base64Codec.UnpaddedGroup | lib/ciphr/functions.rb:137-139 | a quantum with its `=` padding dropped still decodes to its bytes, because the decode step re-pads |
| Base16Codec.UnpackHex | lib/ciphr/functions.rb:167 | `unpack("H*")` writes two lower-case hex digits per byte |
| Base16Codec.PackHex | lib/ciphr/functions.rb:172 | `pack("H*")` gives one byte per two characters, rounding up |
| Base16Codec.PackHexBytes | lib/ciphr/functions.rb:172 | byte `i` of `pack("H*")` is the nibble of character `2i` times 16 plus the nibble of character `2i+1`, and an odd last character is the high nibble of a last byte |
| Base16Codec.Nibble | lib/ciphr/functions.rb:172 | `pack("H*")` reads `0`-`9`, `a`-`f` and `A`-`F` as their hex values |
| Base16Codec.DigitInverse | lib/ciphr/functions.rb:167-172 | digit and nibble are inverse on the lower-case hex digits |
| Base16Codec.UnpackByte | lib/ciphr/functions.rb:166-167 | one byte encodes to two digits, high nibble first |
| Base16Codec.PackUnpack | lib/ciphr/functions.rb:162-175 | `pack("H*")` inverts `unpack("H*")` on every byte string |
| Base16Codec.UnpackPack | lib/ciphr/functions.rb:162-175 | `unpack("H*")` inverts `pack("H*")` on an even number of lower-case digits |
| Base2Codec.UnpackBits | lib/ciphr/functions.rb:217 | `unpack("B*")` writes eight `0`/`1` characters per byte |
| Base2Codec.PackBits | lib/ciphr/functions.rb:222 | `pack("B*")` gives one byte per eight characters, rounding up |
| Base2Codec.UnpackByte | lib/ciphr/functions.rb:216-217 | one byte encodes to eight `0`/`1` characters, most significant bit first |
| Base2Codec.BitAt | lib/ciphr/functions.rb:217 | character `i` of a `k`-bit string is bit `k - 1 - i` of the value |
| Base2Codec.ValueOfBitString | lib/ciphr/functions.rb:217-222 | the bits of a value are read back as the value |
| Base2Codec.BitStringOfValue | lib/ciphr/functions.rb:217-222 | a `0`/`1` string is written back from the value it is read as |
| Base2Codec.PackUnpack | lib/ciphr/functions.rb:212-225 | `pack("B*")` inverts `unpack("B*")` on every byte string |
| Base2Codec.UnpackPack | lib/ciphr/functions.rb:212-225 | `unpack("B*")` inverts `pack("B*")` on whole octets of `0`/`1` |
| Base8Codec.OctalPrefix | lib/ciphr/functions.rb:197 | `to_i(8)` reads the longest leading run of octal digits |
| Base8Codec.OctValue | lib/ciphr/functions.rb:197 | `k` octal digits read a number below `8^k` |
| Base8Codec.ToHex | lib/ciphr/functions.rb:197 | `to_s(16)` writes at least one lower-case hex digit and no leading zero |
| Base8Codec.ToI8Bound | lib/ciphr/functions.rb:196-197 | a group of three characters reads at most 511 |
| Base8Codec.ToI8 | lib/ciphr/functions.rb:197 | `chunk.to_i(8)`; OctalPrefix, OctValue and ToI8Bound state its meaning |
| Base8Codec.DecodeStepValue | lib/ciphr/functions.rb:195-198 | a decode step gives `[v]` only for `16 <= v < 256`, `[16v]` below 16, and two bytes above 255 |
| Base8Codec.DecodeStep | lib/ciphr/functions.rb:195-198 | one Base8 decode call as written; DecodeStepValue, DecodeDigitsFromSixteen and DecodeDigitsBelowSixteen state its meaning |
| Base8Codec.OctalDigits | lib/ciphr/functions.rb:187-193 | the intended encoding writes three octal digits per byte |
| Base8Codec.OctalRoundTrip | lib/ciphr/functions.rb:187-200 | reading the three digits of a byte gives back the byte |
| Base8Codec.OctalByte | lib/ciphr/functions.rb:195-198 | the intended decode: three octal digits read as one byte; OctalRoundTrip states that it inverts OctalDigits, and DigitsRoundTrip the converse on digits up to `377` |
| Base8Codec.DigitsRoundTrip | lib/ciphr/functions.rb:187-200 | writing the byte read from three octal digits up to `377` gives back the digits |
| Base8Codec.DecodeDigitsFromSixteen | lib/ciphr/functions.rb:195-198 | the decode step as written recovers each byte from 16 to 255 from its three digits |
| Base8Codec.DecodeDigitsBelowSixteen | lib/ciphr/functions.rb:195-198 | the decode step as written moves a byte below 16 into the high nibble |
| Once.OnceProc.Call | lib/ciphr/functions.rb:90-94 | a call returns the stored value and clears it |
| Once.OnceAnswers | lib/ciphr/functions.rb:300-306 | of `n` calls, the first returns the stored value and every later one `nil` |
| Once.CallRepeatedly | lib/ciphr/functions.rb:115-119 | calling a once-proc `n` times returns the stored value first and `nil` after |
| Once.StringReaderApply | lib/ciphr/functions.rb:291-293 | `StringReader#apply` makes a proc holding `options[:string]` |
| Once.CallStringProc | lib/ciphr/functions.rb:290-307 | a string proc returns its string on the first call and `nil` on every later call |
| Crypto.Algorithm | lib/ciphr/functions.rb:231 | creating an OpenSSL object succeeds exactly for a present, known `:variant`, and otherwise raises TypeError or the algorithm error |
| Digests.Drain256 | lib/ciphr/functions.rb:86-88 | the digest loop feeds the 256-byte groups of the whole input, in order, and exhausts it |
| Digests.DigestOf | lib/ciphr/functions.rb:83-95 | the digest `Digest#apply` stores, or the error creating the digester raises; DigestApply and DigestCalls state its use |
| Digests.DigestApply | lib/ciphr/functions.rb:83-95 | `Digest#apply` fails before reading on a bad name; otherwise it digests the whole input and stores the digest in a fresh proc |
| Digests.HmacApply | lib/ciphr/functions.rb:108-120 | `HMAC#apply` reads the whole key first, fails on a `nil` key or a bad name, and otherwise stores the HMAC of the whole input |
| Digests.HmacOf | lib/ciphr/functions.rb:108-120 | the HMAC `HMAC#apply` stores, TypeError for a `nil` key, or the error creating the digester raises; HmacApply and HmacCalls state its use |
| Digests.DigestCalls | lib/ciphr/functions.rb:83-95 | a Digest proc returns the digest on the first call and `nil` afterwards, or `apply` raises |
| Digests.HmacCalls | lib/ciphr/functions.rb:108-120 | an HMAC proc returns the HMAC on the first call and `nil` afterwards, or `apply` raises |
| Ciphers.CipherApply | lib/ciphr/functions.rb:229-233 | `Cipher#apply` checks the name, reads the whole key and checks it, and on success makes a fresh proc with an unfed context |
| Ciphers.SetupOf | lib/ciphr/functions.rb:229-233 | the checks `Cipher#apply` makes before the proc exists, in order: the name, then the key; CipherApply states its use |
| Ciphers.CipherProc.Call | lib/ciphr/functions.rb:234-249 | every call reads 256 bytes; a live context returns `update` of a chunk, or `final` at the end and is cleared even if `final` raises; a cleared one returns `nil` |
| Ciphers.Step | lib/ciphr/functions.rb:234-249 | what one call returns and the context it leaves; CipherProc.Call is proved against it |
| Ciphers.Run | lib/ciphr/functions.rb:234-249 | the results of `n` calls, one per call; RunShape states their shape |
| Ciphers.RunCleared | lib/ciphr/functions.rb:246-248 | once the context is cleared, every call returns `nil` |
| Ciphers.RunAtEnd | lib/ciphr/functions.rb:239-245 | at the end of the input a live context returns `final` once, and `nil` on every later call |
| Ciphers.RunUpdate | lib/ciphr/functions.rb:237-238 | before the end a live context returns `update` of the next 256 bytes, and goes on with that chunk fed |
| Ciphers.UpdatesCons | lib/ciphr/functions.rb:237-238 | one more `update` in front keeps every call the `update` of its group after all earlier groups |
| Ciphers.RunShape | lib/ciphr/functions.rb:234-249 | the calls of a live proc are one `update` per 256-byte group after all earlier groups, then `final` of everything exactly once, then `nil` forever, even after a failed `final` |
| Ciphers.CipherCalls | lib/ciphr/functions.rb:234-249 | calling a cipher proc `n` times returns the `n` results the step relation gives |
| Xor.XorBitsComm | lib/ciphr/functions.rb:272 | `^` is commutative |
| Xor.XorBitsInverse | lib/ciphr/functions.rb:272 | XORing twice with the same mask restores a value of that width |
| Xor.XorByteLaws | lib/ciphr/functions.rb:272 | `^` on bytes is commutative and undoes itself |
| Xor.XorByte | lib/ciphr/functions.rb:272 | `^` on two bytes; XorByteLaws states that it is commutative and undoes itself |
| Xor.Plain | lib/ciphr/functions.rb:272 | the bytewise XOR of equal-length strings has their length and XORs position by position |
| Xor.Combine | lib/ciphr/functions.rb:271-272 | the output is as long as the operand the sort put first |
| Xor.EqualLengthCombine | lib/ciphr/functions.rb:271-272 | for a chunk as long as the key, the output is their bytewise XOR, whichever order the sort chose |
| Xor.CombineTwice | lib/ciphr/functions.rb:271-272 | XORing a chunk as long as the key twice with the key restores it |
| Xor.XorProc.Call | lib/ciphr/functions.rb:268-278 | a call reads `key.size` bytes and returns their combination with the key, `nil` at the end, or NoMethodError on a `nil` key |
| Xor.XorStep | lib/ciphr/functions.rb:268-278 | what one call returns; XorProc.Call is proved against it |
| Xor.XorOutput | lib/ciphr/functions.rb:268-278 | the joined results of calling the proc until `nil`; XorRun and XorStreamTwice state its meaning |
| Xor.XorApply | lib/ciphr/functions.rb:266-267 | `XOR#apply` reads the whole key and nothing of the input |
| Xor.XorRun | lib/ciphr/functions.rb:265-279 | calling the XOR proc until `nil` gives the combinations of the key-sized chunks, or NoMethodError for an empty key |
| Xor.XorStreamTwice | lib/ciphr/functions.rb:268-278 | on an input whose length is a multiple of the key's, XOR with the key twice gives the input back |

## Left out

- `FileReader` and `StdInReader` (lib/ciphr/functions.rb:310-332) are file and standard-input I/O and are not modelled.
- `Ciphr::Stream` and its buffering are not part of this model. Every upstream `read(n)` is abstracted as `Streams.Readable`, which delivers exactly `min(n, rest)` bytes and then `nil` forever.
- The OpenSSL digest, HMAC and cipher algorithms are foreign code. They are uninterpreted fields of `Crypto.Suite`. The model assumes that `update` never raises and that `final` can raise (a `None` result in the model).
- The order of checks inside OpenSSL's constructors is assumed. `Ciphers.SetupOf` checks the cipher name, then reads the key, then checks that the key fits. `Digests.HmacOf` checks for a `nil` key before the digest name.
- The exception classes are abstracted to the `Wrappers.Error` values.
- Ruby's `inherited` hook is replaced by an explicit class list, `Catalogue.DeclaredKinds`. It is registered in definition order by `Registry.RegisterAndLookup`.
- `@invert` becomes a choice of `Pulls.Conversion`, or the `decrypt` flag of `Ciphers.CipherApply`.
- `params`, `Function#initialize` and the accessors hold no logic and are not modelled.
- `Cipher.variants` is a function of the name list `OpenSSL::Cipher.ciphers` returns, which is a parameter of the model.
- CipherNames.Downcase: lower-cases only ASCII capitals, because OpenSSL cipher names are ASCII. Ruby's Unicode case mapping is not modelled.
- Base8Codec.OctalPrefix: models `to_i(8)` as reading the leading run of octal digits only. Leading whitespace, a sign, `_` separators and a `0o` prefix are not modelled. A group of at most three characters read from a byte stream is covered except for those forms.
- Base64Codec.Encode64: is stated only for the one to three bytes the encode proc reads. A longer input's 60-column line breaks are not modelled.
- Base64Codec.Unpack: follows Ruby's lenient `decode64`, which skips characters outside the alphabet and skips a `=` until two sextets of the current quantum are collected, after which a `=` ends the data. It is proved only on the groups the encoder writes.
- Xor.Combine: leaves the order of the two strings to the uninterpreted `swap` parameter. The code orders `[inchunk, key]` with `sort` and a one-parameter block, which is not a comparison, so the order is not reliably by size and the key is not reliably the string that repeats. The XOR laws are stated for chunks as long as the key, where the order does not matter.
- Streams.Readable.ReadAll: assumes that a `read` with no size returns everything the upstream still holds, as one string. This is what `HMAC#apply`, `Cipher#apply` and `XOR#apply` (lib/ciphr/functions.rb:110, 233, 267) get from a key that arrives as a single chunk, such as a `StringReader` key. A buffered stream whose no-size `read` returns only the next upstream chunk gives those transforms just the first chunk of a longer key, and the model does not capture that. The same assumption makes an empty key `nil`: `Digests.HmacOf` then fails with TypeError, and `Xor.XorStep` with NoMethodError before any `i % 0` could arise. A stream that hands an empty string through instead would pass the empty key on to OpenSSL or to `input.read(0)`, which the model does not cover.
- Xor.XorStep: measures the key, the chunk and the modulus `b.size` in bytes, while Ruby's `String#size` counts characters. For a key whose encoding makes a character longer than one byte, such as a UTF-8 `é`, `input.read(key.size)` and `b.bytes.to_a[i % b.size]` (lib/ciphr/functions.rb:269, 272) read and index differently from the model. The model matches the source when the strings are binary, where size and byte size agree.
- Base64Codec.Padded: pads to four bytes, while `4 - chunk.size` (lib/ciphr/functions.rb:138) counts characters. The two agree on binary strings and on ASCII text, which is what a Base64 decoder normally reads; a chunk never has more characters than bytes, so one with multi-byte characters gets more padding in the source than in the model: a four-byte chunk holding one two-byte UTF-8 character has `size` 3 and gets one `=` in the source, none in the model.
- The commented-out `Regex` class (lib/ciphr/functions.rb:336-340) is not modelled.

## Findings

| source | as written | input that shows it | evidently intended | confidence | as-written member | corrected member |
|---|---|---|---|---|---|---|
| lib/ciphr/functions.rb:190-193 | the forward Base8 proc returns `chunk = input.read(1)`, passing bytes through, so decoding its output does not give the input back | the byte `A` (65) encodes to `A`, which decodes to a zero byte | each byte written as three octal digits, which the decode proc reads back | not executed | Pulls.Base8NotInverse | Pulls.OctalRoundTrip |
| lib/ciphr/functions.rb:197 | `to_i(8).to_s(16)` gives a single hex digit for values below 16, and `pack("H*")` puts it in the high nibble | the byte 15, written `017`, decodes to `0xf0` | the value itself as one byte | not executed | Base8Codec.DecodeDigitsBelowSixteen | Base8Codec.OctalRoundTrip |
| lib/ciphr/functions.rb:57 | `Cat.variants` lacks the outer list, so `cat` gets the fragment `'noop'`, `noop` is not registered, and `nil` becomes a key | `Functions['noop']` is `nil` and `Functions[nil]` is Cat | `[[['cat','noop'], {}]]`, registering both aliases with `{}` | not executed | Catalogue.CatAsDeclared | Catalogue.IntendedCatLookup |
