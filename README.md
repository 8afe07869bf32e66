# reop in Dafny

A model of reop ("reasonable expectation of privacy"), a small tool that
signs and encrypts files. The model covers the logic in `reop.c` and in the
Python front end `python/main.py`:

- the fixed-size key, signature and message-header records;
- the text armor of keys and signatures, and the 76-column base64 line
  wrapping;
- the public key ring scan and where keys are looked up;
- key generation and the passphrase protection of secret keys;
- signing and verifying (detached and embedded signatures);
- the encrypted-message file in its binary and armored forms, and the
  decrypt dispatch on the header tag;
- the command-line decision table of `main` and of the Python script.

The cryptography (libsodium, bcrypt_pbkdf) and the base64 codec are not
modelled. They are function values passed in as parameters:

- `Sodium.Primitives` holds the primitives. `Sodium.Sound` states the two
  facts about them that cannot be proved here: both sides derive the same
  Curve25519 shared key, and Ed25519 signatures verify.
- `Base64.Codec` is the codec. `Base64.Lawful` states that decoding undoes
  encoding, that the output uses the base64 alphabet, and that it is four
  characters per three bytes (rounded up).

The file system is `Keyring.Env`: the files by name, `$HOME`, whether
`~/.reop` is a directory, and the lines of `~/.reop/pubkeyring`. Randomness
(salts, nonces, random ids, key pairs) is passed in as parameters. So is
whatever the passphrase prompt would return.

Modules, one per file, in dependency order:

- `Common`: bytes, C strings, errors, `strstr`, `htonl`.
- `Layout`: the records and their byte layouts.
- `Sodium`: the primitives.
- `Base64`: the codec.
- `Wrap`: `wraplines` and `writeb64data`.
- `Armor`: `readident`, `parsekeydata` and `encodekey`.
- `Keys`: key generation, the secret-key passphrase, and sign, verify,
  encrypt and decrypt on records.
- `Keyring`: `findpubkey`, `reop_getpubkey` and `reop_getseckey`.
- `KeyFiles`: `generate`.
- `Signed`: signing and verifying files.
- `Envelope`: encrypted message files.
- `Cli`: `main` and `python/main.py`.

Code that works in place is modelled imperatively, with methods proved
against specification functions:

- `wraplines`, on an `array` with `memmove`;
- the `fgets` loops of `findpubkey`;
- the binary branch of `decrypt`, which advances a read position;
- the chunk loop of `writeb64data`;
- the record filling of `reop_generate` and `encryptseckey`;
- the search for the last signature line in `verifyembedded`;
- the `getopt` loop of `main`.

## Model

| member | source | states |
|---|---|---|
| Common.BE32RoundTrip | reop.c:1448-1450 | ntohl of the four bytes htonl wrote gives the 32-bit value back |
| Layout.PubKeyBytes | reop.c:116-124 | the public key record is 76 bytes: sigalg first, randomid at 4..12, enckey last |
| Layout.PubKeyRoundTrip | reop.c:116-124 | reading the 76 bytes of a public key back gives the same record |
| Layout.PubKeyBytesOf | reop.c:116-124 | every 76-byte string is the layout of the record read from it |
| Layout.SecKeyBytes | reop.c:92-106 | the secret key record is 172 bytes: the four tags, randomid at 8..16, sigkey at 76..140, enckey last |
| Layout.SecKeyRoundTrip | reop.c:92-106 | reading the 172 bytes of a secret key back gives the same record |
| Layout.SecKeyBytesOf | reop.c:92-106 | every 172-byte string is the layout of the record read from it |
| Layout.SigBytes | reop.c:108-114 | the signature record is 74 bytes: sigalg, randomid, then the 64-byte signature |
| Layout.SigRoundTrip | reop.c:108-114 | reading the 74 bytes of a signature back gives the same record |
| Layout.SigBytesOf | reop.c:108-114 | every 74-byte string is the layout of the signature read from it |
| Layout.SymMsgRoundTrip | reop.c:126-134 | the 64-byte "SP" header reads back as the same header |
| Layout.SymMsgBytesOf | reop.c:126-134 | every 64-byte string is the layout of the header read from it |
| Layout.EncMsgRoundTrip | reop.c:136-147 | the 130-byte "eC" header reads back as the same header (the ident travels separately) |
| Layout.EncMsgBytesOf | reop.c:136-147 | every 130-byte string is the layout of the header read from it |
| Layout.OldEncMsgRoundTrip | reop.c:69-75 | the 58-byte legacy "CS" header reads back as the same header |
| Layout.OldEncMsgBytesOf | reop.c:69-75 | every 58-byte string is the layout of the header read from it |
| Layout.OldEkcMsgRoundTrip | reop.c:77-83 | the 82-byte legacy "eS" header reads back as the same header |
| Layout.OldEkcMsgBytesOf | reop.c:77-83 | every 82-byte string is the layout of the header read from it |
| Sodium.SecretBox | reop.c:221-225 | the ciphertext has the length of the message and the tag is the MAC of the ciphertext |
| Sodium.SecretBoxOpen | reop.c:232-239 | opening succeeds exactly when the tag is the MAC of the ciphertext, and the result enciphers back to the ciphertext |
| Sodium.SecretBoxRoundTrip | reop.c:221-239 | opening what was sealed under the same key and nonce gives the message |
| Sodium.BoxRoundTrip | reop.c:246-265 | a box sealed from a to B opens with b and A, for key pairs (a, A) and (b, B) |
| Base64.Ntop | reop.c:1274-1275 | encoding fails (-1) exactly when the encoding and its NUL do not fit in the target |
| Base64.Pton | reop.c:434-435 | decoding reads a C string and skips white space; it fails on bad input or a result longer than the target |
| Base64.PtonOfSpaced | reop.c:434-435 | text that is an encoding with white space mixed in decodes to the encoded bytes |
| Wrap.Wrapped | reop.c:360-373 | the wrapped text is (len-1)/76 bytes longer than the text, and text of at most 76 bytes is unchanged |
| Wrap.WrappedAt | reop.c:366-372 | in the wrapped text every 77th byte is a newline and the others are the original bytes in order |
| Wrap.DropSpaceWrapped | reop.c:366-372 | deleting white space from the wrapped text gives the text with white space deleted |
| Wrap.WrappedNewlines | reop.c:363-372 | wrapping adds exactly (len-1)/76 newlines |
| Wrap.WrapOutcome | reop.c:360-373 | the buffer is unchanged when len + (len-1)/76 + 1 > space; otherwise it holds the wrapped string, a NUL, then the old bytes |
| Wrap.WrapLines | reop.c:360-373 | the in-place memmove loop leaves the array as WrapOutcome says (corrected move length, see Findings) |
| Wrap.MemMove | reop.c:369 | memmove copies n bytes from src to dst as if through a buffer, overlapping or not |
| Wrap.WrapLinesAsWritten | reop.c:366-372 | the loop exactly as written leaves the array as WrapOutcomeAsWritten says |
| Wrap.WrapOutcomeAsWritten | reop.c:366-372 | as WrapOutcome, except that the byte where the NUL belongs is not stated |
| Wrap.WrapText | reop.c:364-365 | the string after wraplines: wrapped when it fits, unchanged otherwise; deleting white space undoes it either way |
| Wrap.WrapOutcomeString | reop.c:360-373 | the C string in the buffer after the call is WrapText of the string before |
| Wrap.AsWrittenKeepsOldTerminator | reop.c:368-369 | for len a multiple of 76 and at least 152, the code as written leaves the old byte where the NUL belongs |
| Wrap.AsWrittenCounterexample | reop.c:368-369 | a 152-byte string followed by NUL and 'x' ends up with 'x' right after the wrapped string |
| Wrap.AsWrittenAgrees | reop.c:366-372 | for every other length the code as written and the corrected code leave the same buffer |
| Wrap.Chunked | reop.c:1042-1053 | the output of writeb64data is empty for an empty string and ends in a newline otherwise |
| Wrap.ChunkedIsWrapped | reop.c:1042-1053 | writeb64data writes what wraplines makes, plus a final newline |
| Wrap.DropSpaceChunked | reop.c:1042-1053 | deleting white space from the chunked output gives back the text |
| Wrap.WriteB64Data | reop.c:1042-1053 | the pos/rem loop writes exactly Chunked of the C string |
| Armor.SkipSpace | reop.c:404 | sscanf's %s skips leading white space: what is left starts with a non-space, and all that was dropped is space |
| Armor.Token | reop.c:404 | the word %s reads is a prefix without white space, ended by white space or the end |
| Armor.ReadIdent | reop.c:399-409 | readident fails only with "no ident found" or "invalid header" |
| Armor.ReadIdentSpec | reop.c:399-409 | "no ident found" iff the line lacks "ident:" or a word after it; "invalid header" iff there is a word but no newline after the first byte; otherwise the ident is the word cut to 63 bytes and the rest starts after that newline |
| Armor.ReadIdentWord | reop.c:399-409 | readident on "ident:" + a one-word ident + newline + rest gives that ident and that rest |
| Armor.ParseKeyData | reop.c:415-444 | "invalid key data" without the BEGIN prefix and kind, or without an END line; a result has exactly keylen bytes; the only errors are those of parsekeydata and readident |
| Armor.EncodeKey | reop.c:685-702 | fails with "b64 encode failed" exactly when the base64 does not fit in 1024 bytes; otherwise the text is a prefix of at most 1023 bytes of BEGIN line, ident line, wrapped base64 and END line |
| Armor.ParseEncodeKey | reop.c:415-444 | parsekeydata of what encodekey wrote gives back the key bytes and the ident (kind of at most 10 plain bytes, one-word ident, record of at most 172 bytes) |
| Armor.FirstEndKey | reop.c:426 | the first "-----END REOP " in an encoded key is the END line |
| Armor.ParsePubKey | reop.c:743-748 | a parsed public key is the record of the 76 bytes parsekeydata returns, with its ident |
| Armor.ParseSig | reop.c:819-824 | a parsed signature is the record of the 74 bytes parsekeydata returns, with its ident |
| Armor.PubKeyArmorRoundTrip | reop.c:743-757 | reop_parsepubkey of reop_encodepubkey gives the same public key |
| Armor.SigArmorRoundTrip | reop.c:819-833 | reop_parsesig of reop_encodesig gives the same signature |
| Armor.EncodedLengthsWrapSafely | reop.c:685-702 | the base64 lengths of the three records are clear of the wraplines flaw |
| Keys.Kdf | reop.c:452-486 | zero rounds give the all-zero key without a passphrase; the only failure is bcrypt's, with rounds > 0 |
| Keys.IdentOf | reop.c:718-719 | strlcpy into the ident member keeps a prefix of the ident: all of it up to 63 bytes, otherwise exactly 63 |
| Keys.Generate | reop.c:708-737 | the two halves form a key pair: one randomid, one ident cut to 63 bytes, tags "Ed"/"CS"/"SP"/"BK", each public key derived from its secret key; the rest of the secret record is zero |
| Keys.SecKeyRounds | reop.c:500-502 | 0 rounds exactly when the password is given and empty, 42 otherwise |
| Keys.SealSecKey | reop.c:504-510 | only rounds, salt, nonce, tag and the two keys change; the sealed keys open back to the old ones |
| Keys.EncryptedSecKey | reop.c:495-512 | an empty password always succeeds; the stored rounds read back as SecKeyRounds, and the salt is the fresh one |
| Keys.EncryptSecKey | reop.c:495-512 | the imperative field-by-field update computes EncryptedSecKey |
| Keys.DecryptSecKey | reop.c:515-534 | -2 for a kdfalg other than "BK"; only the two keys change; zero stored rounds use the all-zero key |
| Keys.DecryptSecKeyUnder | reop.c:527-531 | fails exactly when the tag is not the MAC; the result enciphers back to the stored keys |
| Keys.DecryptEncryptedSecKey | reop.c:495-534 | decryptseckey undoes encryptseckey under the same passphrase, or under any passphrase when the password was empty |
| Keys.ZeroRoundsIgnorePassword | reop.c:455-457 | with zero stored rounds the passphrase does not matter |
| Keys.ParseSecKey | reop.c:763-774 | a parsed secret key comes from a parsekeydata result with that ident |
| Keys.EncodeSecKey | reop.c:780-787 | encoding succeeds only when encrypting the copy succeeds |
| Keys.ParseEncodeSecKey | reop.c:763-787 | parsing an encoded secret key with the right passphrase gives the same key |
| Keys.Sign | reop.c:793-804 | the signature carries "Ed", the signer's randomid and ident, and the Ed25519 signature of the message under the signer's key |
| Keys.Verify | reop.c:839-849 | MISMATCH iff the randomids differ; OK iff they agree and Ed25519 verifies |
| Keys.VerifySign | reop.c:793-849 | a signature made with a secret key verifies under the public key of the pair |
| Keys.VerifyWrongKey | reop.c:842-843 | a signature checked against a public key with another randomid is a MISMATCH |
| Keys.PubEncrypt | reop.c:857-879 | the "eC" header names the recipient's and sender's randomids and the sender's ident; the ciphertext has the message's length |
| Keys.PubDecrypt | reop.c:882-909 | MISMATCH iff the header's ids do not name the two keys; otherwise INVALID iff a key is not "CS"; both before any decryption |
| Keys.PubDecryptPubEncrypt | reop.c:857-909 | what A encrypts for B decrypts with B's secret key and A's public key |
| Keys.SymEncrypt | reop.c:943-966 | the header is "SP"/"BK" with 42 rounds and the fresh salt; it fails only when bcrypt fails |
| Keys.SymDecrypt | reop.c:912-931 | INVALID for a kdfalg other than "BK"; it fails only when bcrypt fails on the prompted passphrase |
| Keys.SymDecryptIgnoresPassword | reop.c:921 | the password argument of reop_symdecrypt does not matter |
| Keys.SymDecryptSymEncrypt | reop.c:912-966 | decrypting under the passphrase used to encrypt gives the message |
| Keyring.HomeFile | reop.c:380-392 | a name exists exactly when $HOME is set and ~/.reop is a directory; it is a prefix of $HOME/.reop/name |
| Keyring.ReadAll | reop.c:291-353 | the file's bytes exactly when the file exists |
| Keyring.FindPubKey | reop.c:541-586 | the fgets loop returns the scan of the key ring from its first line (Lookup) |
| Keyring.ReadBlock | reop.c:562-573 | the inner loop reads the ident line and the body lines up to END; where the block ends it agrees with the scan |
| Keyring.ReadBody | reop.c:562-573 | collecting the body lines with strlcat agrees with the scan |
| Keyring.SkipBlanks | reop.c:557-558 | blank lines between blocks are skipped |
| Keyring.CollectBody | reop.c:570-572 | the body lines up to the END line are collected by strlcat |
| Keyring.LookupRing | reop.c:541-586 | on a ring of well-formed blocks the scan returns the first block whose ident matches, if it decodes to exactly 76 bytes |
| Keyring.FindInRing | reop.c:541-586 | on the lines of a well-formed ring, findpubkey returns the key of the first block with the ident |
| Keyring.EndOfRingInBlock | reop.c:563-564 | the end of the ring inside a block gives -1 |
| Keyring.StrayLine | reop.c:559-560 | a non-blank line between blocks that is not the BEGIN line gives -1 |
| Keyring.GetPubKey | reop.c:594-625 | with an ident and no file: "no pubkey" when $HOME is unset or ~/.reop is not a directory (findpubkey's gethomefile, reop.c:549-550) or the ring cannot be opened, and otherwise the key-ring scan; with neither and no ~/.reop, "no pubkey" |
| Keyring.GetPubKeyPrecedence | reop.c:594-625 | an explicit file wins over the ident and ignores the ring; an ident alone ignores the key files and finds nothing without $HOME or ~/.reop; with neither, it reads ~/.reop/pubkey |
| Keyring.GetSecKey | reop.c:641-670 | no file and no ~/.reop gives "no seckey"; the other errors are those of parsekeydata and kdf |
| KeyFiles.FileOrHome | reop.c:1062-1063 | the name given, or else the home file |
| KeyFiles.Store | reop.c:1067-1071 | an exclusive create: no name gives the "no ...file" error and an existing file "can't open ... for writing", both leaving the disk alone; otherwise the file is created, empty when encoding fails (with that error) and holding the key data when it succeeds |
| KeyFiles.WriteKeys | reop.c:1061-1084 | no secret key name gives "no seckeyfile" with nothing written; no existing file changes, nor anything but the files; once the secret key is encoded and its file is new, that file holds it even when the public key step then fails |
| KeyFiles.GenerateFiles | reop.c:1056-1088 | generate makes a key pair with the ident cut to 63 bytes, then writes the two files step by step, leaving on disk what WriteKeys says, errors included |
| KeyFiles.StoreFile | reop.c:1067-1071 | the open-encode-write sequence for one file leaves the disk and error Store says |
| KeyFiles.LeftBehind | reop.c:1061-1080 | once generate has created the secret key file it stays, so a second generate with the same names stops at "can't open ... for writing" and changes nothing; without a public key name it stops at "no pubkeyfile" with the complete secret key file written |
| KeyFiles.WrittenFiles | reop.c:1061-1084 | after generate both names exist, are new and distinct, and hold the encoded keys |
| KeyFiles.ReadPubKeyFile | reop.c:606-620 | reading a file holding an encoded public key gives that key |
| KeyFiles.ReadSecKeyFile | reop.c:647-665 | reading a file holding an encoded secret key with the right passphrase gives the same key |
| KeyFiles.WrittenKeysReadBack | reop.c:1056-1088 | the public and secret key files written by generate read back as a key pair |
| Signed.WriteSignedMsg | reop.c:1094-1115 | "b64 encode failed" exactly when the signature's base64 does not fit in 1024 bytes; otherwise the file starts with the BEGIN line and the message |
| Signed.LastAtOrBefore | reop.c:1218-1219 | the last occurrence of the pattern at or before i, or none if there is none up to i |
| Signed.Last | reop.c:1216-1219 | the last occurrence of the pattern, or none at all |
| Signed.LastSignature | reop.c:1216-1219 | the strstr loop finds the last SIGNATURE line |
| Signed.SplitSigned | reop.c:1203-1222 | "invalid signature" without the BEGIN line; the message holds no NUL |
| Signed.SplitMessage | reop.c:1214-1222 | the message ends where the last SIGNATURE line starts; "invalid signature" without one |
| Signed.VerifyOutcome | reop.c:1182-1192 | success iff reop_verify returned OK, with output empty exactly when quiet; MISMATCH is "checked against wrong key", FAIL is "signature failed" |
| Signed.CheckSig | reop.c:1223-1237 | success needs a public key found by the signature's ident under which the signature verifies |
| Signed.VerifyEmbedded | reop.c:1203-1246 | a missing file is "could not open" |
| Signed.VerifySimple | reop.c:1170-1197 | a missing message is "could not open", then a missing signature file "could not read" |
| Signed.SignFile | reop.c:1121-1148 | a missing message is "could not open" |
| Signed.SplitSignedRoundTrip | reop.c:1203-1222 | verifyembedded's parse of what writesignedmsg wrote gives the message and signature back, even when the message holds the SIGNATURE line (the message must hold no NUL) |
| Signed.SplitMessageRoundTrip | reop.c:1214-1222 | a message followed by a signature block splits back into the two |
| Signed.LastSigLine | reop.c:1216-1219 | the last SIGNATURE line is the one writesignedmsg wrote after the message |
| Signed.ParseSigBlock | reop.c:1222 | reop_parsesig reads the signature block of a signed message |
| Signed.SignVerifyEmbedded | reop.c:1203-1246 | signfile -e then verifyembedded gives the Verify result on the message; with a key pair it is "Signature Verified" |
| Signed.SignVerifyDetached | reop.c:1170-1197 | signfile then verifysimple gives the Verify result on the message; with a key pair it is "Signature Verified" |
| Envelope.KindSize | reop.c:1419-1445 | a size exactly for "SP", "eC", "CS" and "eS" |
| Envelope.EncFile | reop.c:1252-1296 | in binary mode the file is "RBF\0", header, big-endian ident length, ident, ciphertext; the only error is "b64 encode failed" |
| Envelope.WriteEncFile | reop.c:1252-1296 | the step-by-step writes produce EncFile |
| Envelope.ParseBinary | reop.c:1414-1459 | the header has its tag's size and is the bytes after "RBF\0"; the ciphertext is the end of the file; the only error is "invalid encrypted message" |
| Envelope.ParseSized | reop.c:1446-1459 | the same after the tag is known |
| Envelope.ReadBinary | reop.c:1414-1459 | the code that advances a read position computes ParseBinary |
| Envelope.BinaryRejects | reop.c:1419-1454 | the binary form fails iff the tag is unknown, the header or length runs past the end, the ident length is 64 or more, or the ident runs past the end |
| Envelope.ParseArmored | reop.c:1460-1486 | "invalid encrypted message" without the BEGIN line; the header is at most sizeof(hdr), 196 bytes; the only other errors are readident's |
| Envelope.Sections | reop.c:1469-1483 | the only error is "invalid encrypted message"; the decoded header fits sizeof(hdr) (196 bytes) and the ident read before is kept |
| Envelope.DataSection | reop.c:1474-1483 | the only error is "invalid encrypted message"; the header and ident decoded before are kept |
| Envelope.ParseEncFile | reop.c:1414-1486 | the only errors are "invalid encrypted message" and readident's |
| Envelope.ReadEncFile | reop.c:1414-1486 | the method computes ParseEncFile |
| Envelope.BinaryRoundTrip | reop.c:1414-1459 | reading the binary file writeencfile wrote gives back header, ident and ciphertext |
| Envelope.ArmoredRoundTrip | reop.c:1460-1486 | reading the armored file writeencfile wrote gives back header, ident and ciphertext |
| Envelope.SectionsRoundTrip | reop.c:1469-1483 | the two base64 sections decode to header and ciphertext |
| Envelope.EnvelopeRoundTrip | reop.c:1252-1296 | in both forms, decrypt's parse of what writeencfile wrote gives header, ident and ciphertext back |
| Envelope.LegacyDecrypt | reop.c:1537-1563 | "key mismatch" iff (pubrandomid is the public key's and secrandomid is not the secret key's) or pubrandomid is neither key's; secrandomid is never checked in the else-branch |
| Envelope.LegacyIgnoresSecRandomId | reop.c:1550-1552 | when pubrandomid is not the public key's, secrandomid does not change the outcome |
| Envelope.EkcDecrypt | reop.c:1564-1577 | "key mismatch" iff pubrandomid is not the secret key's |
| Envelope.SymOutcome | reop.c:1492-1505 | success iff reop_symdecrypt returns OK |
| Envelope.PubOutcome | reop.c:1517-1533 | success iff reop_pubdecrypt returns OK |
| Envelope.Dispatch | reop.c:1488-1580 | a header whose size is not its tag's is "invalid encrypted message"; a plaintext has the ciphertext's length |
| Envelope.Decrypt | reop.c:1395-1600 | a missing file is "could not open" |
| Envelope.DecryptReadsBack | reop.c:1412-1486 | decrypt on a file writeencfile wrote dispatches on the header, ident and ciphertext |
| Envelope.DispatchEnc | reop.c:1507-1536 | an "eC" header goes to reop_pubdecrypt with the keys found |
| Envelope.DispatchOldEnc | reop.c:1537-1563 | a "CS" header goes to the legacy branch with the keys found |
| Envelope.DispatchPubEncrypt | reop.c:1507-1536 | a header made by reop_pubencrypt decrypts to the message with the matching keys |
| Envelope.DispatchV1PubEncrypt | reop.c:1537-1563 | a header made by v1pubencrypt decrypts to the message with the matching keys |
| Envelope.DispatchSymEncrypt | reop.c:1488-1506 | a header made by reop_symencrypt decrypts to the message under the same passphrase |
| Envelope.PubEncryptFile | reop.c:1304-1332 | a missing message is "could not open" |
| Envelope.PubEncryptFileWrites | reop.c:1309-1327 | with the message and both "CS" keys found, pubencrypt writes the envelope of reop_pubencrypt's header, the sender's ident and the ciphertext |
| Envelope.V1PubEncrypt | reop.c:1359-1363 | the "CS" header names both randomids; the ciphertext has the message's length |
| Envelope.V1PubEncryptFile | reop.c:1339-1371 | the public key error comes first, then the secret key error, then "could not open", then "unsupported key format"; otherwise the file is the envelope of the "CS" header v1pubencrypt fills in (V1PubEncrypt), the sender's ident and the ciphertext |
| Envelope.EncryptErrorOrder | reop.c:1304-1352 | with neither the message nor the recipient's key, pubencrypt says "could not open" (it reads first) and v1pubencrypt "no pubkey" (it looks up the keys first) |
| Envelope.SymEncryptFile | reop.c:1374-1389 | a missing message is "could not open" |
| Envelope.PubEncryptFileDecrypt | reop.c:1304-1332 | pubencrypt succeeds, and decrypt of its file by the recipient gives the message |
| Envelope.V1PubEncryptFileDecrypt | reop.c:1339-1371 | v1pubencrypt succeeds, and decrypt of its file by the recipient gives the message |
| Envelope.SymEncryptFileDecrypt | reop.c:1374-1389 | symencrypt succeeds, and decrypt of its file under the same passphrase gives the message |
| Cli.Apply | reop.c:1697-1764 | an unknown letter or a second verb is a usage error |
| Cli.Parsed | reop.c:1696-1765 | the options loop fails only with a usage error |
| Cli.ParseOptions | reop.c:1696-1765 | the getopt loop computes Parsed |
| Cli.ParsedStops | reop.c:1761-1763 | the first usage error ends the loop |
| Cli.ParsedAccepts | reop.c:1696-1765 | the options are accepted iff every letter is handled and at most one verb letter is given; no verb iff none is given |
| Cli.LastArg | reop.c:1737-1760 | the argument of the last occurrence of a letter, or none iff the letter is absent |
| Cli.ParsedArgs | reop.c:1737-1760 | each of -i -m -p -s -x -z holds the argument of its last occurrence |
| Cli.ParsedSwitches | reop.c:1698-1750 | -1 -b -e -q are set iff given; -n makes the password empty |
| Cli.AgentVerb | reop.c:1726-1730 | -Z sets the AGENT verb |
| Cli.DerivedName | reop.c:1783-1800 | "-" is a usage error; msgfile + suffix of 1024 bytes or more is "path too long"; otherwise it is that concatenation |
| Cli.DefaultIdent | reop.c:1828-1829 | the -i ident, else $USER, else "unknown" |
| Cli.Names | reop.c:1774-1805 | only -x may change and a given -x is kept; afterwards -E/-D have a message file and an -x, and -S/-V with a message file have an -x |
| Cli.Run | reop.c:1807-1864 | the only errors are usage and "can't find HOME" |
| Cli.Main | reop.c:1673-1867 | an options error is a usage error |
| Cli.MainRejects | reop.c:1769-1770 | operands, no verb or two verbs, and -Z all end in usage |
| Cli.EncryptDecryptNames | reop.c:1779-1791 | -E/-D need -m; "-" without -x is refused; the default -x is msgfile".enc" or "path too long" |
| Cli.EncryptDispatch | reop.c:1816-1826 | -s without -p or -i is refused; with -p or -i it calls v1pubencrypt iff -1, else pubencrypt; with neither it calls symencrypt |
| Cli.SignVerifyNames | reop.c:1792-1802 | the default -x is msgfile".sig"; -S needs -m; -V needs -m or -x, and calls verifysimple iff -m is given |
| Cli.GenerateRules | reop.c:1827-1847 | only one of -p/-s is a usage error; with neither, $HOME is required and ~/.reop is created; the ident defaults |
| Cli.PyVerbOf | python/main.py:8-20 | the verb group accepts a non-empty list of one verb repeated, and exits with status 2 otherwise |
| Cli.PyMain | python/main.py:49-122 | an argument-parser error exits with status 2 before anything else |
| Cli.PyMatchesC | python/main.py:63-99 | for -E/-D with -x the script makes the call main makes, and exits where main prints usage |
| Cli.PyDiffersFromC | python/main.py:68-80 | for -D with a message file and no -x the script calls decrypt with no output name, where main would derive msgfile".enc"; for -S without -m the script ends quietly, where main prints usage |
| Cli.RepeatedVerb | python/main.py:8-20 | -D -D is accepted by the script and refused by main's options loop (reop.c:1701-1703) |
| Common.CStr | reop.c:404 | a C string read from a buffer is a prefix of it without NUL, ended by a NUL or the end of the buffer |
| Common.Take | reop.c:404 | a bounded copy such as "%63s" keeps a prefix of exactly n bytes of a longer string, and the whole string when it fits |
| Common.DropSpace | reop.c:434-435 | the base64 decoder skips white space: what remains has none and is no longer |
| Common.FindFirst | reop.c:426 | strstr returns the first occurrence |
| Sodium.Box | reop.c:246-251 | the Curve25519 box keeps the length of the message |
| Sodium.BoxOpen | reop.c:258-265 | an opened box has the length of the ciphertext |
| Layout.PubKeyOf | reop.c:116-124 | reading a public key takes sigalg from bytes 0..2 and randomid from 4..12, and the ident from the armor |
| Layout.SymMsgBytes | reop.c:126-134 | the "SP" header is 64 bytes starting with its symalg |
| Layout.EncMsgBytes | reop.c:136-147 | the "eC" header is 130 bytes starting with its encalg |
| Base64.NtopFits | reop.c:1274-1275 | an encoding shorter than the target always fits |
| Armor.IdentWord | reop.c:404 | the ident is a white-space-free prefix of the first word after "ident:", all of that word up to 63 bytes, otherwise exactly 63 |
| Armor.ReadIdentLine | reop.c:399-409 | readident on the ident line encodekey writes gives the ident and the base64 lines after it |
| Armor.PtonOfWrapped | reop.c:434-435 | the wrapped base64 lines of a key, newline included, decode back to the key |
| Armor.EncodedText | reop.c:685-702 | for a key record, an ident and a kind that fit, encodekey writes the whole armored text, which holds no NUL |
| Keys.KeyPairSameKey | reop.c:515-534 | a secret key that differs only in passphrase protection still pairs with the same public key |
| Keyring.ScanEntry | reop.c:555-580 | the scan over one well-formed block ends after its END line with the block's ident and base64 body |
| Keyring.ScanEnds | reop.c:563-564 | the end of the ring while reading an ident or body line gives -1 |
| KeyFiles.GetSecKeyFile | reop.c:641-670 | reop_getseckey on a file that parses returns that parse |
| Signed.LastIs | reop.c:1216-1219 | an occurrence with none after it is the last one |
| Cli.ParsedArg | reop.c:1737-1760 | the field of an argument letter holds its last occurrence's argument |
| Cli.ParsedSwitch | reop.c:1698-1750 | a switch is set iff its letter is given, and -n always stores the empty password |
| Envelope.DataRoundTrip | reop.c:1474-1483 | the chunked base64 of the ciphertext followed by the END line decodes back to it |
| Envelope.EncHeaderOk | reop.c:1507-1536 | an "eC" header has its tag's size and no other tag |

## Left out

- The cryptography itself: XSalsa20, Poly1305, Curve25519, Ed25519 and bcrypt_pbkdf are uninterpreted. Sound states the two facts the proofs need. randombytes is a parameter.
- The base64 codec: reopb64_ntop and reopb64_pton are not part of this model. Lawful states the three facts used.
- File I/O: xopen, readall, writeall, close and fgets. Files are a map, and writing a file replaces its contents at once. Key generation keeps the files it created before an error (KeyFiles.Disk). Signed.WriteSignedMsg does not: writesignedmsg has already written the BEGIN line, the message and the ident line when its "b64 encode failed" check runs (reop.c:1100-1109), but the model returns only the error. That check cannot fail for a 74-byte signature. Neither is a readall failure other than a missing file, nor the read-size limits.
- Standard input and output as "-": a message file named "-" is an ordinary name here. The message decrypt and verify would print is returned as a value.
- The passphrase prompt, REOP_PASSPHRASE and readpassphrase (reop.c:460-481): the prompt is a parameter. Its own errors ("unable to read passphrase", "please provide a password", "passwords don't match") are not modelled.
- getenv("HOME"), getenv("USER") and os.environ: parameters (`Shell`, `Env.home`).
- The mkdir of ~/.reop and its failure: Cli.GenerateRules records the path to create. KeyFiles takes whether ~/.reop is a directory as given.
- xopenorfail (reop.c:983-1004): only the O_EXCL failure on an existing file is modelled (key generation). The other opens always succeed.
- Memory: malloc failures (reop_pubencrypt and reop_symencrypt return NULL), sodium_memzero, xfree and struct padding.
- agentserver and the AGENT verb's action (reop.c:1621-1669): under `#if 0`, so -Z always ends in usage.
- getopt itself: its output is a sequence of (letter, argument) pairs. A missing argument and an unknown letter both come out as a letter that main does not handle, as getopt returns '?'.
- The argparse library beyond the verb group: python/main.py is modelled on the parsed values. The script's own `-n` is parsed but never used. The script ends at line 122 after computing the directory for -G, and makes no call for -S and -V; PyMain returns `PyEnd` there.
- Keys.SymDecrypt: the passphrase comes from the prompt, never from the password argument (reop.c:921). This is modelled as written.
- Envelope.LegacyDecrypt: the legacy "CS" key-id test compares the same pair twice (reop.c:1550-1551), so secrandomid is not checked in that branch. This is modelled as written, and LegacyIgnoresSecRandomId states the consequence.
- Decrypt's union: a binary header shorter than two bytes cannot occur, because the file is at least six bytes long. An armored header whose base64 decodes to fewer than two bytes is rejected by its size here. The C code would compare the union's stale tag bytes.
- Signed.SplitSigned: a signed message whose text holds a NUL byte cannot be verified by verifyembedded, which reads the file as a C string. The round trip therefore requires a message without NUL.
- Keyring.FindPubKey: fgets splits the key ring into lines of at most 1023 bytes. The model takes the lines as given.

## Findings

| source | as written | input that shows it | evidently intended | confidence | as-written member | corrected member |
|---|---|---|---|---|---|---|
| reop.c:368-369 | `amt` is capped at 76, so `memmove(..., amt + 1)` does not move the terminating NUL when the last line is a full 76 bytes | a buffer of at least 160 bytes holding 152 'A', NUL, 'x', then NULs, with space 160: after the call, byte 153 is 'x', so the wrapped string runs on | the NUL always moves with the last line (`amt + 1` bytes with `amt = len - pos` on the last step) | not executed | Wrap.WrapLinesAsWritten, Wrap.AsWrittenCounterexample | Wrap.WrapLines, Wrap.WrapOutcomeString |
