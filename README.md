# vault-e2e-plugin: payload resolution and envelope encryption

This project models the core of the end-to-end payload engine. The engine is a Vault secrets plugin. A secret holder posts a JSON payload to the `payload/<endpoint>` path, and the plugin does three things:

- It fills in marker keys `<field>@/e2e/<secret path>.<accessor>` that hold `true` with values read from the plugin's own key-value store. A marker that fails is replaced in place by an `Error: ...` message, and that failure is logged with a running number.
- It seals the resolved payload with AES-256-GCM under a fresh key and nonce, and wraps `key || nonce` with RSA-OAEP for the enrolled endpoint.
- It frames both ciphertexts as `len(rsa) || rsa || aes` and returns them as base64 armor text: a BEGIN line, a version line, an empty line, 76-column body lines and an END line.

The decrypting tool reverses these steps. It scans the armor, decodes the base64, splits the frame, unwraps the key and nonce, and opens the AES ciphertext.

The modules follow the program:

- `Common`: the `Option` and `Outcome` wrappers and the `Byte` type.
- `Strings`: the pieces of Go's `strings` and `fmt` the code relies on: `Index`, `Contains`, the cutset trims, and `%3d` numbering.
- `Payload`: the JSON value tree, the capabilities the walk consumes, and the resolution of one marker key.
- `Walker` and `WalkerProperties`: `populate` and `payloadError` in two forms:
  - specification functions over the tree;
  - imperative methods over a shared `ErrorLog` object, which stands for the `*errorCount` and `*errors` pointers;
  - plus lemmas about the whole walk.
- `WalkerMarkers`: the walk under the guard `@/e2e/` over many markers at once.
- `Framing`: the little-endian length prefix and the `key || nonce` secret.
- `Armor`: `splitB64`, the armor lines and the decrypting tool's line scanner.
- `Pipeline`: both ends put together, and the round trip between them.
- `Naming`: the enrolment key that a payload request looks up.

Storage reads, JSON decoding, template parsing and execution, base64, AES-GCM and RSA-OAEP are deterministic functions given as parameters (`Payload.Env`, `Pipeline.Crypto`). The order in which `MapKeys` lists a map is a parameter too: `Env.order`, which must list every key exactly once. It is a function of the map's value, so two equal nested maps are listed in the same order, whereas Go orders each `MapKeys` call independently; every lemma holds for every such order function. The random key and nonce are inputs.

## Model

| member | source | states |
|---|---|---|
| Strings.IndexOf | plugin/path_payload.go:229 | the index `SplitN` cuts at: where the separator first occurs, or None exactly when it occurs nowhere (so `strings.Contains`, modelled as `Strings.Contains`, holds exactly when it is not None) |
| Strings.TrimLeft | plugin/path_payload.go:83 | the result is a suffix of the input; every dropped character is in the cutset; the first kept character is not |
| Strings.Trim | test/decrypt.go:61 | trimming with the empty cutset leaves the line unchanged |
| Strings.Decimal | plugin/path_payload.go:310 | `%d` prints only digits, with no leading zero |
| Strings.DecimalRoundTrip | plugin/path_payload.go:310 | the printed error number reads back as the number itself |
| Strings.PadLeft3 | plugin/path_payload.go:310 | `%3d` right-aligns the numeral in at least three columns, padding with spaces only |
| Payload.FieldName | plugin/path_payload.go:229-230 | `parts[0]`: the key's prefix up to where `@/e2e/` first occurs, so it holds no `@/e2e/` itself |
| Payload.FieldNameIsNotKey | plugin/path_payload.go:229-230 | the field name always differs from its marker key |
| Payload.PathExpr | plugin/path_payload.go:229-231 | `parts[1]`: the key is the field name, `@/e2e/`, then the path expression |
| Payload.SecretPath | plugin/path_payload.go:233-238 | `secParts[0]` exists exactly when the key holds `@/e2e/` and the path expression a `.`; it is the prefix before the first `.` and holds no `.` |
| Payload.Accessor | plugin/path_payload.go:252 | `secParts[1]`: the path expression is the secret path, `.`, then the accessor |
| Payload.SeparatorPassesGuard | plugin/path_payload.go:227-229 | every key with `@/e2e/` also contains the guard `@/` |
| Payload.MarkerKeyParts | plugin/path_payload.go:229-233 | the two splits recover field, path and accessor from `field@/e2e/path.accessor` when the field has no `@/e2e/` and the path no `.` |
| Payload.MarkerKeyOfParts | plugin/path_payload.go:229-233 | every key with a secret path is put back together from its three parts |
| Payload.Resolve | plugin/path_payload.go:229-274 | panics exactly when the key holds no `@/e2e/`; a success names the field before the separator and carries non-empty text; every failure message starts with `Error: ` |
| Payload.ResolveWithoutDot | plugin/path_payload.go:233-238 | a path expression without `.` fails with the parsing message |
| Payload.ResolveStoreFault | plugin/path_payload.go:240-244 | a storage error fails with `Error: in storage get request: ` and the error text |
| Payload.AbsentSecretIsNotFound | plugin/path_payload.go:272-274 | a marker whose secret path is absent fails with `Error: path not found` |
| Payload.ResolveDecodeFault | plugin/path_payload.go:245-250 | a stored secret that does not decode fails with `Error: unmarshalling json: ` and the error text |
| Payload.ResolveParseFault | plugin/path_payload.go:252-257 | a template `{{.accessor}}` that does not parse fails with `Error: in template parse: ` and the error text |
| Payload.ResolveExecFault | plugin/path_payload.go:259-264 | a template that fails on the secret fails with `Error: in template execute: ` and the error text |
| Payload.ResolveEmpty | plugin/path_payload.go:265-268 | an empty rendering fails with the empty-interpolation message |
| Payload.ResolvedExactly | plugin/path_payload.go:240-271 | a marker resolves to `field -> text` exactly when its secret is stored and decodes, `{{.accessor}}` parses and renders `text` against it, `text` is non-empty, and `field` is the text before `@/e2e/`; the template is `Payload.Template`, the `{{.` + accessor + `}}` text built at lines 252-253 |
| Payload.ResolveMarkerKey | plugin/path_payload.go:229-271 | the key `field@/e2e/path.accessor` whose secret renders non-empty `text` resolves to `field -> text` |
| Walker.EntryLayout | plugin/path_payload.go:310 | the line `Walker.Entry` prints with `Sprintf`: the number right-aligned in three columns (wider from 1000) and reading back as itself, `) ` and an opening backquote, the key, the closing backquote, `: `, and the message as the suffix |
| Walker.EntryNumber | plugin/path_payload.go:310 | the first column of an error line, spaces trimmed, is the decimal numeral of the error's number |
| Walker.Visit | plugin/path_payload.go:227-274 | leaves a key alone unless it holds `true` and contains the guard. Otherwise it panics exactly when `@/e2e/` is missing; appends at most one logged failure, written back at the key; or replaces the marker by its field with nothing else changed |
| Walker.WalkMap | plugin/path_payload.go:208-279 | the log only grows, by `Error: ` entries at marker keys; with the guard `@/e2e/` the walk never panics |
| Walker.WalkKeys | plugin/path_payload.go:214-225 | visiting the snapshot keys in order, recursing into nested maps, extends the log the same way |
| Walker.NestedStep | plugin/path_payload.go:218-224 | one unfolding of `WalkKeys` at a nested map, used to prove `Walker.Populate` and the lemmas below: the map is walked with the shared log and the loop goes on with the rest of the keys; a panic inside stops the whole walk |
| Walker.VisitStep | plugin/path_payload.go:227-276 | one unfolding of `WalkKeys` at a key that is not a map, used to prove `Walker.Populate` and the lemmas below: the key is visited and the loop goes on with the rest of the keys from the visited map and log |
| Walker.ErrorLog.constructor | plugin/path_payload.go:114-115 | an empty error list and a zero count |
| Walker.PayloadError | plugin/path_payload.go:306-311 | writes the message back at the key, counts one more error and appends the entry numbered with the new count; count, entries and numbering stay consistent |
| Walker.Populate | plugin/path_payload.go:208-279 | the imperative walk ends with exactly the payload and the log of `WalkMap` under the guard `@/`, or panics at the key where `WalkMap` crashes |
| WalkerProperties.WalkInertIsIdentity | plugin/path_payload.go:214-277 | a payload with no `true`-valued guard key at any depth comes back unchanged, with nothing logged |
| WalkerProperties.UntouchedKeyKeepsValue | plugin/path_payload.go:214-277 | a plain key that is not a marker and no marker's field keeps its value |
| WalkerProperties.SingleMarker | plugin/path_payload.go:227-274 | with one marker, the walk ends as that marker's resolution says, whatever the key order: field replaces marker, error written back and logged, or panic |
| WalkerProperties.CrashedAlone | plugin/path_payload.go:227-231 | a lone `true` key that holds `@/` but not `@/e2e/` makes the whole walk panic at that key |
| WalkerProperties.FailedBesidePlain | plugin/path_payload.go:233-274 | a marker whose resolution fails gets its error message written back at it and logged once, while a plain sibling keeps its value |
| WalkerProperties.ResolvedAlone | plugin/path_payload.go:240-271 | a lone marker that resolves is replaced by its field name holding the rendered text, with nothing logged |
| WalkerProperties.NestedAlone | plugin/path_payload.go:218-224 | a map holding one nested map ends with that map replaced by its own walk, and the log that walk leaves |
| WalkerProperties.NestedMarker | plugin/path_payload.go:218-274 | a marker one level down ends as its resolution says, inside its parent: panic, error written back and logged, or field replacing marker |
| WalkerProperties.NestedMarkerExample | plugin/path_payload.go:218-274 | `{"outer": {"inner@/e2e/x.y": true}}` never panics and becomes `{"outer": {"inner": text}}` or holds the logged error at the marker |
| WalkerProperties.GuardPanicExample | plugin/path_payload.go:227-231 | `{"x@/kv/a.b": true}` makes the walk panic |
| WalkerProperties.AbsentSecretExample | plugin/path_payload.go:272-274 | a missing secret yields one logged `Error: path not found` and leaves the sibling key alone |
| WalkerProperties.ResolvedMarkerExample | plugin/path_payload.go:270-271 | `{"pw@/e2e/db.pass": true}` becomes `{"pw": text}` when the secret renders as text |
| WalkerMarkers.MarkerFailures | plugin/path_payload.go:306-310 | every entry it lists is a marker among the keys whose resolution fails, with that failure's message |
| WalkerMarkers.VisitUnderSeparator | plugin/path_payload.go:227-276 | under `@/e2e/` one visit never panics, logs at most the key's own failure, settles the key if it is a marker, writes a resolved marker's text at its field, and leaves every other `@/e2e/` key, and every other key without `@/e2e/`, alone |
| WalkerMarkers.HeadStep | plugin/path_payload.go:214-276 | one loop step over a map whose nested maps hold no markers: the head key settles, a resolved head marker's text lands at its field, nothing else changes, and the rest of the walk continues from the new map and log |
| WalkerMarkers.MarkersFrom | plugin/path_payload.go:214-277 | walking the keys, every marker among them settles, the log grows by their failures in key order, a resolving marker whose field no other resolving marker names leaves its text at that field, `@/e2e/` keys outside them are left alone, and so are keys without `@/e2e/` that no resolving marker among them names |
| WalkerMarkers.MarkerFailuresCount | plugin/path_payload.go:306-310 | over distinct keys there is one log entry per failing marker |
| WalkerMarkers.EveryMarkerSettles | plugin/path_payload.go:214-277 | one marker failing does not stop the rest: every marker ends written back with its error or removed, a resolving marker whose field no other resolving marker shares leaves `field -> text`, and the log grows by exactly one entry per failing marker |
| WalkerMarkers.VisitGuardsAgree | plugin/path_payload.go:227-231 | a visit under the guard `@/` that does not panic is the visit under `@/e2e/` |
| WalkerMarkers.GuardsAgree | plugin/path_payload.go:208-279 | the walk as written, with the guard `@/`, equals the walk under `@/e2e/` whenever it does not panic |
| WalkerMarkers.GuardsAgreeKeys | plugin/path_payload.go:214-277 | the same agreement for the loop over the remaining keys, nested maps included |
| WalkerMarkers.CompletedWalkSettles | plugin/path_payload.go:208-279 | a walk as written that completes (the `Completed` case of `Walker.Populate`) over a map whose nested maps hold no markers meets every fact of `EveryMarkerSettles` |
| Framing.PutUint16 | plugin/path_payload.go:171 | two bytes, low byte first, holding the length modulo 65536 |
| Framing.Uint16 | test/decrypt.go:78 | reads two little-endian bytes as a number below 65536 |
| Framing.Frame | plugin/path_payload.go:170-173 | the buffer is prefix, RSA ciphertext, AES ciphertext, with the prefix holding the RSA length mod 65536 |
| Framing.Unframe | test/decrypt.go:78-80 | succeeds exactly when the 16-bit end bound `2+rsaLen` does not wrap and fits the buffer; the parts then re-form the buffer |
| Framing.UnframeAfterFrame | test/decrypt.go:78-80 | the split succeeds on the encoder's buffer exactly when the RSA length mod 65536 is below 65534, and gives back both ciphertexts exactly when the RSA length is below 65534 |
| Framing.UnframeWrapExample | test/decrypt.go:79-80 | a 65534-byte RSA ciphertext makes the split fail |
| Framing.UnframeWide | test/decrypt.go:78-80 | the split with an unwrapped bound succeeds exactly when the prefix length fits |
| Framing.UnframeWideAfterFrame | test/decrypt.go:78-80 | the unwrapped split inverts the buffer exactly when the RSA length fits the 16-bit prefix |
| Framing.KeyNonce | plugin/path_payload.go:158-159 | the secret is key then nonce: 44 bytes for a 32-byte key and a 12-byte nonce |
| Framing.SplitKeyNonce | test/decrypt.go:95-97 | succeeds exactly when there are at least 32 bytes; the first part has 32 bytes and the two parts re-form the input |
| Framing.SplitKeyNonceAfterKeyNonce | test/decrypt.go:95-97 | splitting inverts `key || nonce` for every 32-byte key |
| Armor.Chunks | plugin/path_payload.go:295-304 | the pieces concatenate to the input; none is empty or wider than the size; all but the last are full |
| Armor.ChunksUnique | plugin/path_payload.go:295-304 | those properties determine the split uniquely |
| Armor.SplitB64 | plugin/path_payload.go:295-304 | the loop returns the unique full-width split of the text |
| Armor.ArmorLines | plugin/path_payload.go:176-192 | the armor is the BEGIN line, the version line, an empty line, body lines of at most 76 characters (all full but the last) that concatenate to the base64 text, and the END line |
| Armor.NextStage | test/decrypt.go:48-58 | the scanner moves `looking -> started -> rsa` only forward, on a BEGIN line and on an empty line |
| Armor.Appended | test/decrypt.go:59-61 | only body-stage lines not starting with `-----` add text, unchanged |
| Armor.ScanArmor | test/decrypt.go:40-68 | the loop collects exactly the specified body text |
| Armor.Kept | test/decrypt.go:60 | a line is among the kept ones exactly when it is among the input lines and does not start with `-----` |
| Armor.KeptOne | test/decrypt.go:60 | a single line is kept exactly when it does not start with `-----`; with `KeptAppend` this fixes the kept lines and their order |
| Armor.KeptAppend | test/decrypt.go:59-64 | keeping lines distributes over concatenation, so the kept lines stay in input order |
| Armor.ScanFrom | test/decrypt.go:46-68 | the collected text is never longer than the lines joined (`Strings.Flatten`); from the body stage it is the kept lines joined, END lines skipped like any `-----` line |
| Armor.ScanHeader | test/decrypt.go:53-58 | header lines add nothing, and the first empty line starts the body |
| Armor.ScanHeaderUnended | test/decrypt.go:53-58 | a header never ended by an empty line collects nothing |
| Armor.ScanWithoutBegin | test/decrypt.go:49-52 | input without a BEGIN line collects nothing |
| Armor.ScanSections | test/decrypt.go:46-68 | for any leading text, header and body, the result is the kept body lines |
| Armor.KeptChunks | plugin/path_payload.go:183-186 | no line of a base64 body starts with `-----` |
| Armor.ScanAfterArmor | test/decrypt.go:59-64 | for armor followed by other lines, the scan returns the body plus the trailing lines that do not start with `-----` |
| Armor.ScanArmorRoundTrip | test/decrypt.go:40-68 | scanning the encoder's armor gives back the base64 text |
| Armor.ScanPastEndExample | test/decrypt.go:62-63 | a line after END is glued onto the payload |
| Armor.BodyStep | test/decrypt.go:59-61 | in the body stage a line not starting with `-----` is appended whole and the scan goes on |
| Armor.ScanUntilEndRoundTrip | test/decrypt.go:62-63 | a scan that stops at END recovers the base64 text whatever follows |
| Armor.BodyUntilEnd | test/decrypt.go:59-64 | stopping at END collects exactly the body lines before it |
| Pipeline.Sealed | plugin/path_payload.go:152-192 | fails exactly when wrapping `key || nonce` fails; otherwise the body lines spell out the base64 of `len(rsa) || rsa || aes` between the header lines and the END line |
| Pipeline.Opened | test/decrypt.go:40-113 | text that does not decode is reported as such; a success means the buffer splits into an RSA part that unwraps to a 32-byte key and a nonce, which open the AES part to the returned plaintext |
| Pipeline.EncodeArmor | plugin/path_payload.go:170-192 | the armor is framed, encoded, split into 76-column lines and delimited; scanning it returns the encoded text |
| Pipeline.EncryptPayload | plugin/path_payload.go:152-192 | seals, wraps `key || nonce` and armors exactly as `Sealed` specifies |
| Pipeline.DecryptArmored | test/decrypt.go:40-113 | scans, decodes, splits, unwraps and opens exactly as `Opened` specifies, with each failure as an error |
| Pipeline.RoundTrip | test/decrypt.go:73-113 | the decrypting end recovers the sealed plaintext. It assumes the library pairs invert each other and the RSA ciphertext is shorter than 65534 bytes |
| Pipeline.IntendedRoundTrip | test/decrypt.go:62-80 | the decrypting end, scanning only up to END and splitting with an unwrapped bound, recovers the sealed plaintext for RSA ciphertexts up to 65535 bytes, whatever lines follow the armor |
| Naming.EnrolmentKey | plugin/path_payload.go:83 | the key is `enrole/` plus the request path with its leading run of `payload/` characters removed |
| Naming.EnrolmentKeyOfName | plugin/path_payload.go:83 | an endpoint name keeps its own key exactly when it is empty or does not start with one of `p a y l o d /` |
| Naming.EnrolmentKeyExample | plugin/path_payload.go:83 | the endpoint `alpha` is looked up as `enrole/ha` |
| Naming.IntendedEnrolmentKeyOfName | plugin/path_payload.go:83 | stripping the prefix once maps every endpoint name to its own key |

## Left out

- Storage, JSON, templates, crypto and base64: the storage read, JSON decoding, template parsing and execution, base64 and the ciphers are deterministic function parameters. Their internals, and the randomness of the key, the nonce and OAEP, are not modelled.
- The accessor `{{.accessor}}` is evaluated by the template engine. The model keeps the template text that `populate` builds but treats its evaluation as a parameter.
- Struct payloads: `populate` turns structs into maps through reflection (`structs.Map`). Decoded JSON holds no structs, so this branch is not modelled.
- Arrays: the code does not recurse into arrays; only maps and structs are walked. The model follows the code. An array value is left untouched, like any value that is not `true`.
- Walker.WalkKeys: nested maps are mutated through shared references in Go. The model writes the walked nested map back at its key. Decoded JSON has no shared sub-maps, so only the aliasing itself is not captured.
- WalkerMarkers.EveryMarkerSettles: stated for maps whose nested maps hold no markers. The value at a field is stated only for a resolving marker whose field no other resolving marker of the map names; where several do, the one walked last wins, which depends on the key order. Markers one level down are covered one at a time by `WalkerProperties.NestedMarker`, and a nested walk in general by `Walker.NestedStep`.
- Walker.PayloadError: the count is unbounded; Go's `int` counter cannot overflow within any realistic payload.
- `log.Println` in `payloadError` is I/O and is left out.
- Returning the response: joining the armor lines with newlines, and the response map with `errorcount` and `errors`, are not modelled. The decrypting tool's scanner receives the lines already split.
- Armor.ScanArmor: a `bufio.Scanner` line longer than its 64 KiB buffer ends the scan; the model reads lines of any length.
- Decrypt end: reading the private key, PEM and PKCS#1 parsing, and printing the plaintext are not modelled. The model reports each panic of the tool as an `Err`.
- Encrypt end: PEM and PKIX parsing of the enrolled public key, including the `PUBLIC KEY` block type check, is not modelled. Neither is marshalling the resolved payload to JSON: the plaintext is an input of `Pipeline.EncryptPayload`.
- Pipeline.RoundTrip: holds only when `seal`/`open`, `wrap`/`unwrap` and `encode`/`decode` invert each other on the values involved; the lemma assumes this.
- `main.go`, `plugin/backend.go`, `plugin/path_enrole.go`, `plugin/path_kv.go`, `plugin/enrolement.go` and `bin/genrsapair.go`: plugin wiring, enrolment and key-value CRUD, and key generation. These are not part of this model.
- Numbers: JSON numbers are `real`. Floating-point rounding is not modelled; the walk never inspects numbers.

## Findings

| source | as written | input that shows it | evidently intended | confidence | as-written member | corrected member |
|---|---|---|---|---|---|---|
| plugin/path_payload.go:83 | `strings.TrimLeft(req.Path, "payload/")` removes every leading character drawn from `p a y l o d /` | the endpoint `alpha`: the path `payload/alpha` is looked up as `enrole/ha` | remove the prefix `payload/` once (`strings.TrimPrefix`) | not executed | Naming.EnrolmentKeyExample | Naming.IntendedEnrolmentKeyOfName |
| test/decrypt.go:78-80 | `2+rsaLen` is computed in `uint16` | an RSA ciphertext of 65534 bytes: the end bound wraps to 0 and the slice panics | compute the bound in `int` | not executed | Framing.UnframeWrapExample | Framing.UnframeWideAfterFrame |
| test/decrypt.go:63 | `break` leaves only the `switch`, not the scanning loop | an armor followed by the line `junk`: the payload text becomes `QUJDjunk` | stop reading at the END line | not executed | Armor.ScanPastEndExample | Armor.ScanUntilEndRoundTrip |
| plugin/path_payload.go:227-231 | markers are recognised by `@/`, but split at `@/e2e/` and `parts[1]` is read | `{"x@/kv/a.b": true}`: `parts` has one element and the request panics | recognise markers by `@/e2e/` | not executed | WalkerProperties.GuardPanicExample | Walker.WalkMap |
