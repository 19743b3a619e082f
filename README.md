# WebAuthn passkeys demo: codec and ceremony options

A Dafny model of the sequential core of a small WebAuthn ("passkey") demo.
Its web client registers a passkey with the browser's platform authenticator,
sends `{id, user, publicKey}` to a user list, and offers two logins: one per
listed user and one "bare" login that lets the authenticator pick a
discoverable credential.

Two source files hold the logic, and each maps to Dafny modules:

- `gui/src/utils/index.ts`:
  - `classNames` joins the truthy arguments with one space. It is modelled in
    module `Utils` on a small `JsValue` datatype, with JavaScript truthiness and
    `Array.prototype.join` rendering.
  - `arrayBufferToBase64` and `base64ToArrayBuffer` are methods over arrays,
    with the source's loops (module `Utils`).
  - The loops call `window.btoa` and `window.atob`. These are written out in
    module `Window` as the HTML standard defines them.
  - The base64 itself is in module `Base64`. Encoding follows section 4 of
    RFC 4648: the `+`/`/` alphabet with `=` padding. Decoding is the
    "forgiving-base64 decode" of the WHATWG Infra standard, which is what
    `atob` runs. It drops ASCII whitespace, treats padding as optional and
    ignores the unused low bits of a final partial quantum. It rejects a
    foreign character, an `=` anywhere but in the last two places of a
    length-multiple-of-4 text, and a length of 1 modulo 4.
- `gui/src/components/Webauthn.tsx` (module `Webauthn`):
  - `createCredentialPublicKey` gives the creation options.
  - The registration callback turns the authenticator's result into a record.
  - The two login handlers build the request options.
  - To give these values meaning, the model adds two rules from Web
    Authentication Level 2. First, the authenticator takes the first algorithm
    in `pubKeyCredParams` that it supports (section 6.3.2). Second, a request
    makes a credential eligible only through its allow-list, or, when the list
    is empty, when the credential is discoverable (sections 5.1.4 and 6.3.3).

The code uses standard padded base64 through the lenient `atob`, and every
ceremony carries the same constant challenge `0..7`; nothing in the client
verifies a response. `Webauthn.ChallengeNeverChanges` states the constant
challenge.

Octets are `Base64.Byte` (0..255). JavaScript strings are `string`. Every
string in scope is either a binary string (all code units below 256) or base64
text, so Dafny characters and UTF-16 code units agree on them. The store into a
`Uint8Array` keeps the value modulo 256, and the model writes this out.
`RegistrationRecord` encodes the key with `Base64.Encode`. That function is
`arrayBufferToBase64` (see `Utils.ArrayBufferToBase64`), but a function cannot
call a method.

## Model

| member | source | states |
|---|---|---|
| `Base64.EncodeQuantum` | gui/src/utils/index.ts:46 | one to three octets become one more character than octets, all from the alphabet |
| `Base64.EncodeChunks` | gui/src/utils/index.ts:46 | the unpadded encoding has 4 characters per full 3-octet group plus 2 or 3 for a final partial group, all from the alphabet |
| `Base64.Padding` | gui/src/utils/index.ts:46 | the padding is (3 − n mod 3) mod 3 `=` characters |
| `Base64.Sextets` | gui/src/utils/index.ts:46 | one to three octets split into one more 6-bit group than octets, and the unused low bits of the last group are zero, so every encoding is the canonical one |
| `Base64.Encode` | gui/src/utils/index.ts:46 | the padded base64 of n octets has length 4·⌈n/3⌉; every character is from `A–Z a–z 0–9 + /` except the trailing padding, which is all `=` |
| `Base64.ValueOf` | gui/src/utils/index.ts:51 | an alphabet character stands for a 6-bit value that encodes back to it |
| `Base64.Octets` | gui/src/utils/index.ts:51 | two to four 6-bit groups regroup into one octet fewer than groups, the leftover low bits dropped |
| `Base64.OctetsSextets` | gui/src/utils/index.ts:38-60 | regrouping the 6-bit groups of a quantum gives its octets back |
| `Base64.OctetsIgnoresUnusedBits` | gui/src/utils/index.ts:51 | groups that differ only in the unused low bits of the last group decode to the same octets |
| `Base64.SextetsOctets` | gui/src/utils/index.ts:46-51 | groups whose unused bits are zero are exactly the split of the octets they decode to |
| `Base64.DecodeQuantum` | gui/src/utils/index.ts:51 | two to four characters decode to one octet fewer than characters |
| `Base64.DecodeChunks` | gui/src/utils/index.ts:51 | a run of alphabet characters decodes to 3 octets per 4 characters plus 1 or 2 for a final group of 2 or 3 |
| `Base64.DecodeEncodeQuantum` | gui/src/utils/index.ts:38-60 | decoding a quantum undoes its encoding |
| `Base64.DecodeEncodeChunks` | gui/src/utils/index.ts:38-60 | decoding the unpadded encoding of any octets gives those octets back |
| `Base64.StripAsciiWhitespace` | gui/src/utils/index.ts:51 | `atob` first removes the ASCII whitespace: none is left, and a text without whitespace comes back unchanged |
| `Base64.StripConcat` | gui/src/utils/index.ts:51 | whitespace removal distributes over concatenation, so it keeps the order and number of the other characters |
| `Base64.StripChar` | gui/src/utils/index.ts:51 | one character is dropped when it is ASCII whitespace and kept otherwise |
| `Base64.StripAllWhitespace` | gui/src/utils/index.ts:51 | a text of whitespace alone is removed entirely |
| `Base64.StripKeeps` | gui/src/utils/index.ts:51 | every character of the input that is not ASCII whitespace survives whitespace removal |
| `Base64.TrimPadding` | gui/src/utils/index.ts:51 | then it removes at most two trailing `=`, and only from a text whose length is a multiple of 4 |
| `Base64.TrimEncode` | gui/src/utils/index.ts:38-60 | whitespace removal and trimming take a padded encoding back to its unpadded characters |
| `Base64.ForgivingDecodeEncode` | gui/src/utils/index.ts:38-60 | round trip: decoding the encoding of any octets gives exactly those octets, empty input and trailing zero octets included |
| `Base64.ForgivingDecodeUnpadded` | gui/src/utils/index.ts:51 | `atob` also accepts the encoding with its padding left off |
| `Base64.ForgivingDecodeIgnoresWhitespace` | gui/src/utils/index.ts:51 | inserting ASCII whitespace anywhere in the text does not change what `atob` decodes it to, nor whether it fails |
| `Base64.ForgivingDecodeRejectsForeign` | gui/src/utils/index.ts:51 | a character outside the alphabet that is neither `=` nor whitespace makes `atob` fail |
| `Base64.ForgivingDecodeRejectsMisplacedPadding` | gui/src/utils/index.ts:51 | an `=` that is not among the last two characters of a length-multiple-of-4 text makes `atob` fail |
| `Base64.ForgivingDecodeRejectsStrayQuantum` | gui/src/utils/index.ts:51 | a whitespace-free length of 1 modulo 4 makes `atob` fail |
| `Window.IsomorphicDecode` | gui/src/utils/index.ts:42-44 | the binary string has the input's length, its i-th code unit equals octet i, so every code is below 256 |
| `Window.IsomorphicEncode` | gui/src/utils/index.ts:54-56 | reading the code units of a binary string back as octets inverts the binary string |
| `Window.Btoa` | gui/src/utils/index.ts:46 | `btoa` succeeds exactly on binary strings |
| `Window.Atob` | gui/src/utils/index.ts:51 | `atob` succeeds exactly when forgiving decode does, and then returns a binary string |
| `Window.AtobOctets` | gui/src/utils/index.ts:51-56 | reading the code units of what `atob` returns back as octets gives exactly the forgiving-decoded octets |
| `Window.BtoaIsomorphic` | gui/src/utils/index.ts:42-46 | `btoa` of the octets' binary string is their RFC 4648 base64 |
| `Window.AtobBtoa` | gui/src/utils/index.ts:46-51 | `atob` undoes `btoa` on every binary string |
| `Utils.TruthyTextNonEmpty` | gui/src/utils/index.ts:4 | a truthy argument never renders as the empty string |
| `Utils.DecimalDigits` | gui/src/utils/index.ts:4 | a safe integer renders as one or more decimal digits |
| `Utils.KeepTruthy` | gui/src/utils/index.ts:4 | `filter(Boolean)` keeps exactly the truthy values |
| `Utils.KeepTruthyConcat` | gui/src/utils/index.ts:4 | filtering distributes over concatenation, so the kept values stay in their original order |
| `Utils.JoinSnoc` | gui/src/utils/index.ts:4 | joining one more part appends the separator and the part, for parts of any content, separator included |
| `Utils.SplitJoin` | gui/src/utils/index.ts:4 | splitting a join on its one-character separator gives the parts back when no part contains the separator |
| `Utils.ClassNames` | gui/src/utils/index.ts:3-5 | the result is empty exactly when no argument is truthy, in particular with no arguments |
| `Utils.ClassNamesSnoc` | gui/src/utils/index.ts:3-5 | argument by argument: a falsy argument adds nothing, a truthy one adds its text, preceded by one space unless nothing came before it; with the empty case this fixes every output |
| `Utils.ClassNamesOfTwo` | gui/src/components/Logo.tsx:11-20 | the program's own call with two non-empty class lists, spaces inside them allowed, gives the first, one space, then the second |
| `Utils.ClassNamesSplit` | gui/src/utils/index.ts:3-5 | corollary for arguments without spaces: splitting the output on `' '` recovers the truthy arguments' texts in order |
| `Utils.ArrayBufferToBase64` | gui/src/utils/index.ts:38-47 | the loop builds the binary string of the buffer, and the returned text is the RFC 4648 base64 of the buffer's octets |
| `Utils.StoreCodeUnits` | gui/src/utils/index.ts:52-56 | the array is newly allocated and as long as the text, and slot i holds code unit i modulo 256; on a binary string the array is exactly its octets |
| `Utils.Base64ToArrayBuffer` | gui/src/utils/index.ts:49-60 | fails exactly when `atob` throws; otherwise returns a newly allocated array holding exactly the forgiving-decoded octets of the text, the code units of what `atob` returned |
| `Utils.RoundTrip` | gui/src/utils/index.ts:38-60 | `base64ToArrayBuffer(arrayBufferToBase64(b))` succeeds with a new buffer holding the same octets as `b`, for every buffer |
| `Webauthn.CreateCredentialPublicKey` | gui/src/components/Webauthn.tsx:83-105 | challenge is the 8 octets 0..7 for every username; relying party "Webauthn Passkeys" at "localhost"; user handle is the same octets; name and display name are the username; two "public-key" parameters, ES256 (−7) then RS256 (−257) |
| `Webauthn.CreationOptionsDependOnlyOnUsername` | gui/src/components/Webauthn.tsx:83-105 | the options are a pure function of the username that differs only in the user's name fields; equal options iff equal usernames |
| `Webauthn.ChosenAlgorithm` | gui/src/components/Webauthn.tsx:97-103 | the authenticator's choice is a listed algorithm it supports; there is none exactly when it supports no listed algorithm |
| `Webauthn.RegistrationPrefersES256` | gui/src/components/Webauthn.tsx:97-103 | the list order makes ES256 the choice whenever supported, and RS256 only when ES256 is not |
| `Webauthn.CreationOptionsAccepted` | gui/src/components/Webauthn.tsx:88-96 | a client accepts the registration options exactly on pages served from `localhost` or below it |
| `Webauthn.RegistrationRecord` | gui/src/components/Webauthn.tsx:57-70 | no authenticator result gives no record and no store call; otherwise the record holds the credential id and the username, its key is null exactly when the authenticator gave none, and a present key is stored as its RFC 4648 base64 text |
| `Webauthn.RecordKeyDecodes` | gui/src/components/Webauthn.tsx:64-70 | the record's key text decodes back to exactly the authenticator's key |
| `Webauthn.LoginRequestOptions` | gui/src/components/Webauthn.tsx:136-150 | the per-user login reuses the registration challenge and `rpId` "localhost"; its allow-list is one "public-key" entry for the decoded stored id, with transports usb, nfc, ble |
| `Webauthn.BareLoginRequestOptions` | gui/src/components/Webauthn.tsx:189-197 | the bare login reuses the same challenge and `rpId`, with an empty allow-list |
| `Webauthn.ChallengeNeverChanges` | gui/src/components/Webauthn.tsx:137-141 | registration and both logins carry the same challenge whatever the user |
| `Webauthn.BareLoginEligible` | gui/src/components/Webauthn.tsx:189-197 | the bare login admits exactly the discoverable credentials of `localhost`, on a page at or below `localhost` |
| `Webauthn.UserLoginEligible` | gui/src/components/Webauthn.tsx:136-150 | the per-user login admits exactly the `localhost` credential whose id is the decoded stored id |
| `Webauthn.RegisteredCredentialEligible` | gui/src/components/Webauthn.tsx:137-149 | a credential registered on `localhost` is admitted by its own user's login when the id decoder inverts the credential id text |

## Left out

- `supportsWebauthn` and `useSupportsWebauthn` (gui/src/utils/index.ts:8-36): an asynchronous platform capability probe plus React state. The `supported &&` gating of the registration buttons is rendering and is not modelled.
- `navigator.credentials.create` and `navigator.credentials.get`, with their promise chaining, are platform calls. The authenticator's result is an `Option` input. A rejected promise, such as a user cancellation, never reaches the callback and has the same effect as `None`.
- The two login callbacks only `console.log` the assertion. Neither these nor the `console.log` calls in `base64ToArrayBuffer` are modelled.
- `createUser`, `fetchUsers` and the server's `users.push` are network I/O with no validation. The model stops at the record handed to `createUser`.
- `base64URL.decode` from `utils/base` is not part of this model. It is a function parameter of `LoginRequestOptions` and is taken to be total, since it may throw and nothing here says when.
- JSX rendering, `Button`, `Logo` and the `Users` list are presentation.
- `Utils.ClassNames`: arguments are limited to `undefined`, `null`, booleans, safe integers (magnitude below 2^53) and strings. Larger numbers, which `String` renders in exponent notation from 1e21, fractional numbers, `NaN`, BigInt, objects and symbols are not modelled.
- Dafny strings hold Unicode scalar values rather than UTF-16 code units, so a lone surrogate cannot be given to `Window.Btoa`. It would be rejected either way, because it is above 0xFF.
- `Webauthn.IsDomainSuffixOf` is a plain dot-suffix test. Public-suffix and IP-address rules of a registrable domain suffix are not modelled.
- Challenge issuance and expiry, signature and attestation verification, sign counters and duplicate-credential checks do not exist in the code and are not modelled.
