# idproxy: the GrandSlam login and the socket-pool client, in Dafny

This project models two parts of idproxy.

**The GrandSlam login** is `gsa_authenticate` and its helpers in `idproxy/api/pypush_gsa_icloud.py`. It covers:

- the SRP exchange, driven through an SRP user object whose password field is overwritten once the server has chosen its derivation mode;
- the derivation of the SRP password (`encrypt_password`, modes `s2k` and `s2k_fo`);
- the session sub-keys (`create_session_key`) and the decryption of the `spd` payload (`decrypt_cbc`), with PKCS#7 unpadding;
- the dispatch on the `au` status;
- the bytes-to-Base64 rewrite of the payload and the second-factor headers with their identity token;
- the request body built by `gsa_authenticated_request`;
- the restart of the login after an accepted second factor.

**The Go client** is `IDProxyClient` in `idproxyclient/main.go`. It covers:

- the deduplicated, append-only socket list (`addSockets`);
- the rotation counter and the failover of `ExecuteAuthorizedRequest`;
- the status check of `doRequest`;
- socket discovery in a two-level directory tree (`getSockets`, `GetAndAddSockets`).

Some collaborators are not modelled inside. They are records of functions that the caller supplies:

- SHA-256, HMAC-SHA256 (RFC 2104), PBKDF2-HMAC-SHA256 (section 5.2 of RFC 8018) and AES-CBC decryption are in `GsaCrypto.Primitives`. The ghost predicate `Conforming` fixes their output lengths.
- The SRP library is `Gsa.SrpLibrary`.
- The property-list parser is a field of `Gsa.Services`.
- One HTTP exchange over a socket is `IdProxyClient.Network`.
- `os.ReadDir` and `path.Join` are `IdProxyClient.FileSystem`.

The server is modelled by its replies: each login attempt is given a `Gsa.Round`, which holds the replies it receives.

Files:

- `wrappers.dfy`: `Option`, `Result`, `Byte`.
- `encoding.dfy`: UTF-8, lowercase hex, and Base64 (section 4 of RFC 4648), each with a decoder as its partner.
- `pkcs7.dfy`: PKCS#7 padding (section 6.3 of RFC 5652).
- `gsa_crypto.dfy`: `encrypt_password`, `create_session_key`, `decrypt_cbc`.
- `plist.dfy`: property-list values and the bytes-to-Base64 loop.
- `gsa.dfy`: the SRP user object, the request bodies, the second-factor headers, the `au` dispatch and the login.
- `client.dfy`: the Go client.

Two behaviours are kept as the code has them:

- An unknown `au` value makes `gsa_authenticate` return `None` (`Gsa.NoPayload`). It is not an error.
- After an accepted second factor the function calls itself again without a bound. A second 2FA request is handled like the first, not as an error. The model bounds the recursion only by the rounds it is given.

## Model

Source paths are relative to the repository root.

| member | source | states |
|---|---|---|
| Encoding.Utf8 | idproxy/api/pypush_gsa_icloud.py:243 | UTF-8 encoding of the password: between 1 and 4 bytes per character |
| Encoding.Utf8RoundTrip | idproxy/api/pypush_gsa_icloud.py:243 | decoding the UTF-8 bytes of any string gives the string back |
| Encoding.Utf8Injective | idproxy/api/pypush_gsa_icloud.py:252 | different strings (HMAC labels) have different UTF-8 encodings |
| Encoding.Utf8Append | idproxy/api/pypush_gsa_icloud.py:205 | encoding a concatenation is the concatenation of the encodings |
| Encoding.Utf8Ascii | idproxy/api/pypush_gsa_icloud.py:245 | ASCII text (the hex digest) encodes to one byte per character, the character code |
| Encoding.Hex | idproxy/api/pypush_gsa_icloud.py:245 | `bytes.hex()`: two lowercase hex digits per byte |
| Encoding.HexRoundTrip | idproxy/api/pypush_gsa_icloud.py:245 | the hex text decodes back to the digest |
| Encoding.Base64Encode | idproxy/api/pypush_gsa_icloud.py:99 | `b64encode`: 4 ASCII characters per started 3-byte group |
| Encoding.Base64RoundTrip | idproxy/api/pypush_gsa_icloud.py:99 | the Base64 text decodes back to the bytes it encodes |
| Encoding.Base64Injective | idproxy/api/pypush_gsa_icloud.py:99 | different byte strings get different Base64 texts |
| Pkcs7.Unpad | idproxy/api/pypush_gsa_icloud.py:264-266 | succeeds iff the length is a positive multiple of 16, the last byte n is in 1..16 and the last n bytes equal n; the result is the input minus those n bytes, a strict prefix |
| Pkcs7.Pad | idproxy/api/pypush_gsa_icloud.py:265 | the sender's half: adds 1 to 16 bytes up to a whole block and keeps the message as prefix |
| Pkcs7.UnpadPad | idproxy/api/pypush_gsa_icloud.py:264-266 | unpadding a padded message returns the message |
| Pkcs7.PadUnpad | idproxy/api/pypush_gsa_icloud.py:264-266 | every accepted input is some message padded, namely its unpadded result |
| Pkcs7.CorruptedPaddingRejected | idproxy/api/pypush_gsa_icloud.py:264-266 | changing any padding byte other than the last makes unpadding fail |
| GsaCrypto.ParseProtocol | idproxy/api/pypush_gsa_icloud.py:242 | only "s2k" and "s2k_fo" are accepted modes |
| GsaCrypto.StretchInputByMode | idproxy/api/pypush_gsa_icloud.py:243-245 | the PBKDF2 input is the 32-byte digest under s2k and its 64-byte hex text under s2k_fo; the two always differ and the hex text decodes to the digest |
| GsaCrypto.EncryptPassword | idproxy/api/pypush_gsa_icloud.py:241-246 | fails (the assert) iff the mode is unsupported; otherwise PBKDF2 of the mode's input with the given salt and iterations, 32 bytes long |
| GsaCrypto.CreateSessionKey | idproxy/api/pypush_gsa_icloud.py:248-252 | fails with "no session key" iff the SRP session key is absent; otherwise HMAC-SHA256 of the UTF-8 label under it, 32 bytes |
| GsaCrypto.Take | idproxy/api/pypush_gsa_icloud.py:258 | `s[:16]`: the first min(16, len) elements |
| GsaCrypto.SubKeyShapes | idproxy/api/pypush_gsa_icloud.py:255-258 | the key is 32 bytes, the IV is the first 16 bytes of the second HMAC, and the two labels differ |
| GsaCrypto.DecryptCbc | idproxy/api/pypush_gsa_icloud.py:254-266 | no session key is an error; a result padded again is exactly the raw CBC decryption; with conforming primitives the cipher rejects exactly ciphertexts that are not whole blocks, and any other failure is a padding error; a whole-block ciphertext is accepted iff its raw decryption is well padded |
| Plist.Textified | idproxy/api/pypush_gsa_icloud.py:97-99 | a bytes value becomes the Base64 string that decodes back to it; other values stay |
| Plist.ReplaceBytesWithBase64 | idproxy/api/pypush_gsa_icloud.py:97-99 | the loop keeps the key set, rewrites each entry as `Textified` says, and leaves no bytes value |
| Gsa.SrpUser.constructor | idproxy/api/pypush_gsa_icloud.py:62 | the user starts with an empty password, no session and not authenticated |
| Gsa.SrpUser.StartAuthentication | idproxy/api/pypush_gsa_icloud.py:63 | A is the library's public value for the user's private ephemeral |
| Gsa.SrpUser.ProcessChallenge | idproxy/api/pypush_gsa_icloud.py:71-77 | the session is computed from the password held at the time of the call; M is returned iff there is a session |
| Gsa.SrpUser.VerifySession | idproxy/api/pypush_gsa_icloud.py:82-84 | authenticated once the server's proof equals the expected one |
| Gsa.SrpUser.SessionKey | idproxy/api/pypush_gsa_icloud.py:249-251 | the key exists iff the session exists and was verified |
| Gsa.Cpd | idproxy/api/pypush_gsa_icloud.py:191-202 | five fixed entries, then the anisette headers, which win on a clash |
| Gsa.RequestBodyShape | idproxy/api/pypush_gsa_icloud.py:112-117 | the body has Header.Version "1.0.1"; Request holds cpd plus the parameters, and the parameters win on a clash |
| Gsa.InitParameters | idproxy/api/pypush_gsa_icloud.py:65 | the `init` parameters are A, the user name and "init", and the modes offered in `ps` are exactly those the mode check accepts |
| Gsa.CompleteParameters | idproxy/api/pypush_gsa_icloud.py:79 | the `complete` parameters echo `c`, carry the proof M1 and the user name, and name an operation other than "init" |
| Gsa.IdentityTokenDecodes | idproxy/api/pypush_gsa_icloud.py:205 | the identity token is Base64 of the UTF-8 bytes of dsid, ":" and the IdMS token |
| Gsa.SecondFactorHeaders | idproxy/api/pypush_gsa_icloud.py:204-218 | the six fixed headers plus the anisette headers, which win on a clash; the identity token when not overridden |
| Gsa.IdentityFields | idproxy/api/pypush_gsa_icloud.py:100 | `adsid` and `GsIdmsToken` are read iff both are present and text |
| Gsa.SecondFactorHeadersFor | idproxy/api/pypush_gsa_icloud.py:97-100 | headers are built iff the payload is a dictionary whose two identity fields are text after the Base64 rewrite |
| Gsa.Dispatch | idproxy/api/pypush_gsa_icloud.py:94-110 | 2FA iff `au` is one of the two known states; any other `au` means no result; no `au` means the payload |
| Gsa.GsaAuthenticate | idproxy/api/pypush_gsa_icloud.py:60-110 | the step-by-step login on the SRP user object computes `Authenticate` |
| Gsa.AttemptSteps | idproxy/api/pypush_gsa_icloud.py:60-80 | one pass up to the `complete` request: mode check, password replaced, challenge; equals `Attempt` |
| Gsa.CompleteSteps | idproxy/api/pypush_gsa_icloud.py:79-92 | server proof, decryption and parse of `PLISTHEADER + plaintext`; equals `CompletePhase` |
| Gsa.StatusSteps | idproxy/api/pypush_gsa_icloud.py:94-110 | dispatch, the Base64 loop and the 2FA step; equals `StatusPhase` |
| Gsa.StatusPhaseEnds | idproxy/api/pypush_gsa_icloud.py:94-110 | the status phase only adds the 2FA step to the log; no `au` returns the parsed payload unchanged; an unknown `au` returns nothing; a known `au` fails with the header error when the identity fields are missing, otherwise records the 2FA step (channel flag, headers, typed code) and restarts iff the code was accepted, else fails with a rejected code |
| Gsa.CompletePhaseEnds | idproxy/api/pypush_gsa_icloud.py:81-110 | from the `complete` reply on, the log only gains the 2FA step, and the attempt ends as the status phase allows |
| Gsa.CompletePhaseRejectsProof | idproxy/api/pypush_gsa_icloud.py:81-84 | a server proof M2 other than the expected one ends the attempt with `SessionNotVerified`, before any decryption and with the log unchanged |
| Gsa.CompletePhaseOutcome | idproxy/api/pypush_gsa_icloud.py:86-110 | once M2 matches: a decryption failure or a parse failure ends the attempt with that error; a returned payload is the parse of `PLISTHEADER` plus the decrypted plaintext; after a parse, no `au` returns it, an unknown `au` returns nothing, and a known `au` records the 2FA step iff the identity fields are there |
| Gsa.CompletePhaseVerified | idproxy/api/pypush_gsa_icloud.py:81-110 | from the `complete` reply on: a wrong M2 ends with `SessionNotVerified`; a payload or a restart needs a matching M2 and a successful decryption; a payload is the parse of that plaintext |
| Gsa.AttemptEnds | idproxy/api/pypush_gsa_icloud.py:65-110 | an unsupported mode ends the attempt before any proof and before the `complete` request; the SRP password is the derived one iff the mode is supported |
| Gsa.AttemptChallengesDerived | idproxy/api/pypush_gsa_icloud.py:71-79 | the password recorded as installed is the one the challenge is processed with: `complete` is sent iff that challenge yields a session, and its body carries that session's proof M1 |
| Gsa.AttemptVerifiedBeforePayload | idproxy/api/pypush_gsa_icloud.py:71-92 | per attempt: a challenge without a session ends with `ChallengeFailed`, a wrong M2 with `SessionNotVerified`, and a payload or a restart only follows a verified session whose payload decrypted (and parsed to the payload) |
| Gsa.RetryUnrolled | idproxy/api/pypush_gsa_icloud.py:105 | the recursion is the attempts run in turn, the first with the caller's channel and the rest with "sms", until one finishes |
| Gsa.AuthenticateTrace | idproxy/api/pypush_gsa_icloud.py:60-110 | over a login: at most one attempt per round; every attempt but the last passed an accepted 2FA; retries ask by SMS; each attempt installed the derived password iff its mode was supported |
| Gsa.AuthenticateUsesDerivedPassword | idproxy/api/pypush_gsa_icloud.py:71-79 | over a login, each attempt processes the challenge with the derived password: it sends `complete` iff that yields a session, with that session's proof |
| Gsa.AuthenticateLastAttempt | idproxy/api/pypush_gsa_icloud.py:71-110 | a login that does not run out of rounds ends with exactly what its last attempt ends with; a returned payload had no `au`, a `None` result had an unknown `au`, and the last attempt satisfies `AttemptVerified`: no session means `ChallengeFailed`, a wrong M2 means `SessionNotVerified`, and a payload is the parse of a plaintext decrypted under a verified session |
| Gsa.AuthenticateVerifiedBeforePayload | idproxy/api/pypush_gsa_icloud.py:71-110 | over a login, every restart after a second factor and the returned payload come from an attempt whose challenge on the derived password gave a session, whose M2 matched it and whose payload decrypted; the payload is the parse of that plaintext |
| IdProxyClient.Wrap32 | idproxyclient/main.go:117 | the int32 counter wraps from the maximum to the minimum |
| IdProxyClient.GoRem | idproxyclient/main.go:121 | Go's `%`: the result differs from the dividend by a multiple of the divisor, lies in 0..b-1 for a non-negative dividend and in -(b-1)..0 for a negative one |
| IdProxyClient.AppendNew | idproxyclient/main.go:165-170 | the old list is a prefix of the new one, and at most one element is added per path |
| IdProxyClient.AppendNewContents | idproxyclient/main.go:165-170 | the new list holds exactly the old entries and the given paths, without duplicates |
| IdProxyClient.AppendNewPresent | idproxyclient/main.go:166-169 | paths already present leave the list unchanged |
| IdProxyClient.AppendNewIdempotent | idproxyclient/main.go:161-171 | adding the same paths again changes nothing |
| IdProxyClient.AppendNewOrder | idproxyclient/main.go:165-170 | the appended paths were absent before and are in the order of their first occurrence in the input |
| IdProxyClient.SocketIndexAsWritten | idproxyclient/main.go:121 | the index as written: the wrapped sum minus the index is a multiple of n, the index lies in -(n-1)..n-1, and it is negative only when the wrapped sum is |
| IdProxyClient.IndexAsWrittenGoesNegative | idproxyclient/main.go:121-122 | the index as written is -2 with 3 sockets once the counter or the sum has wrapped |
| IdProxyClient.IndexAsWrittenBeforeWrap | idproxyclient/main.go:121 | before any wrap the index as written is the intended one |
| IdProxyClient.SocketIndex | idproxyclient/main.go:121 | attempt i uses (start + i) mod n, always in bounds |
| IdProxyClient.RotationIsPermutation | idproxyclient/main.go:120-122 | within a call the indices are distinct and cover every socket, so each socket is tried exactly once |
| IdProxyClient.SuccessiveStarts | idproxyclient/main.go:116-117 | successive calls start on successive sockets while the counter does not wrap |
| IdProxyClient.DoRequest | idproxyclient/main.go:74-94 | success iff the answer is 200 and decodes as a JSON string; any other status is an error carrying the socket, the status and the body |
| IdProxyClient.Failover | idproxyclient/main.go:119-131 | the first success in trying order, with every earlier attempt failed; otherwise an error wrapping the last failure |
| IdProxyClient.AllFailedReportsLastTried | idproxyclient/main.go:128-131 | when every socket fails, the error wraps that of socket (start + n - 1) mod n |
| IdProxyClient.SecondCallReportsFirstSocket | idproxyclient/main_test.go:141-148 | two sockets both answering 500, counter at 1: the error names the first socket |
| IdProxyClient.TryInTurn | idproxyclient/main.go:119-131 | the loop returns `Failover` of the rotation; it asks the sockets in rotation order, stops at the first success, and asks all n only when all fail |
| IdProxyClient.MatchesContents | idproxyclient/main.go:150-154 | a subdirectory contributes `sub/SocketName` exactly when it holds a non-directory socket entry of that name |
| IdProxyClient.CollectedPrefixFailure | idproxyclient/main.go:145-148 | an unreadable subdirectory aborts the whole listing with its error |
| IdProxyClient.CollectedContents | idproxyclient/main.go:142-158 | the listing succeeds iff every subdirectory is readable; it then holds exactly `root/d/SocketName` for each subdirectory d with such an entry |
| IdProxyClient.Client.constructor | idproxyclient/main.go:30-37 | a new client has no sockets and the counter at zero |
| IdProxyClient.Client.WithDefaults | idproxyclient/main.go:39-41 | the default root `/tmp/idproxy_sockets` and socket name `idproxy.sock` |
| IdProxyClient.Client.AddSockets | idproxyclient/main.go:161-171 | the list becomes `AppendNew(old list, paths)` and keeps no duplicates |
| IdProxyClient.Client.ExecuteAuthorizedRequest | idproxyclient/main.go:99-132 | no sockets or a marshal error: that error, with the counter unchanged and no request sent; otherwise the counter goes up by one (wrapping) and the result is the failover from the old value |
| IdProxyClient.Client.GetSockets | idproxyclient/main.go:134-159 | the nested loops compute `ListSockets`: a root read error, a subdirectory read error, or the socket paths in listing order |
| IdProxyClient.Client.GetAndAddSockets | idproxyclient/main.go:43-51 | a listing error is wrapped and leaves the list unchanged; otherwise the found sockets are added |

## Left out

- SRP-6a arithmetic (RFC 5054 group, proofs M1/M2, session key): the library is a record of uninterpreted functions, and `SrpUser` keeps only the state the handshake reads.
- SHA-256, HMAC, PBKDF2 and AES internals: they are uninterpreted. Only their output lengths (`Conforming`) and how they are composed are modelled. PBKDF2's own checks of its arguments are not modelled.
- GsaCrypto.EncryptPassword: `password.encode("utf-8")` raises `UnicodeEncodeError` for a password holding a lone surrogate (possible with surrogate-escaped input). A Dafny `string` holds only Unicode scalar values, so that error path cannot be represented.
- Gsa.RequestBodyShape: `body["Request"].update(parameters)` mutates a dictionary in place. The model builds the body as a value, with map union for the update; no other reference to that dictionary exists in the source.
- Property-list parsing and serialisation: the parser is a function from `PLISTHEADER + plaintext` to an optional value. Request bodies are values, not XML.
- HTTP traffic: the two `GsService2` exchanges, `request_second_factor_code`, `send_second_factor_code`, the anisette query and `loginDelegates` are all network I/O. A round supplies the replies, and whether the code was accepted (`resp.ok`).
- `generate_meta_headers` and the anisette headers: clock, locale and random identifiers. Each round supplies one anisette header map.
- Gsa.Round: the code fetches the anisette headers afresh for the `init` cpd, the `complete` cpd and the second-factor headers, each with a new client time. The model uses one map per attempt for all three; no stated property depends on them being equal.
- The `input()` prompt (the code comes with the round) and the `print` calls.
- `idproxy/api/idproxy.py` is not part of this model.
- Gsa.AttemptSteps: the Python code raises `KeyError` or `TypeError` when a reply lacks `sp`, `s`, `i`, `B`, `c`, `M2`, `spd` or `Status`, or holds a value of the wrong type. Replies are typed records here, so those failures cannot occur.
- Gsa.GsaAuthenticate: the recursion after an accepted second factor is unbounded in the code. The model runs at most one attempt per given round and ends in `RoundsExhausted` when the rounds run out.
- Go `sync.RWMutex` and `atomic.Int32`: calls are sequential. Concurrent callers and their interleavings are not modelled.
- IdProxyClient.Client.ExecuteAuthorizedRequest: the URL and the data are represented only by their JSON encoding, `None` when `json.Marshal` fails. The index uses the corrected `SocketIndex` (see Findings).
- IdProxyClient.SocketIndexAsWritten: the `int32(numSockets)` conversion is taken as exact, which assumes fewer than 2^31 sockets.
- IdProxyClient.DoRequest: dialling, `client.Do` and `io.ReadAll` are one oracle answer per socket and body. The custom `Dial` hook is that oracle. `http.NewRequest` on the fixed URL cannot fail and is not modelled.
- IdProxyClient.Client.GetSockets: `os.ReadDir` and `path.Join` are uninterpreted (so path cleaning is not modelled). An entry's mode is reduced to "is a directory" and "is a socket".

## Findings

| source | as written | input that shows it | evidently intended | confidence | as-written member | corrected member |
|---|---|---|---|---|---|---|
| idproxyclient/main.go:117-122 | `socketIdx := (startOffset + int32(i)) % int32(numSockets)`: the int32 sum wraps and Go's `%` keeps the dividend's sign, so the index goes negative and `c.sockets[socketIdx]` panics | 3 sockets: on the call whose start offset is 2147483647, attempt 1 computes -2; on the next call the counter has wrapped to -2147483648 and attempt 0 computes -2 | a round-robin index in 0..n-1 for every counter value | high (not executed) | IdProxyClient.IndexAsWrittenGoesNegative | IdProxyClient.SocketIndex |
