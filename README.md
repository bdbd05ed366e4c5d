# rusoil-gpt-service backend core in Dafny

This project is a Dafny model of the backend core of the rusoil-gpt-service FastAPI service, with proofs about that model. It covers these parts:

- **Deterministic embedding engine** (`backend/app/embeddings.py`).
  - Text is hashed with BLAKE2b into a 64-byte digest.
  - Component `i` is read from the four digest bytes at offset `i * (64 // dim)`.
  - Each component is `(v % 10000) / 5000 - 1`.
  - `chunk_text` splits text into windows that overlap by a fixed number of characters.
- **In-memory user directory** (`backend/app/auth/users.py`).
  - It keeps the `_users` dictionary and the `_next_id` counter.
  - It also holds the user record (`backend/app/auth/models.py`).
- **Access tokens** (`backend/app/auth/security.py`).
  - Tokens are JWTs (RFC 7519) signed with HS256 (section 3.2 of RFC 7518).
  - Expiry uses the `exp` claim (section 4.1.4 of RFC 7519).
  - The password hasher is part of this module.
- **Authentication routes** (`backend/app/auth/routers.py`): `login`, the bearer-token dependency `get_current_user`, and `/auth/me`.
- **Older authentication module** (`backend/app/auth.py`).
  - It has its own secret default.
  - Its claims fall back from one name to another (`user_id`/`sub`, `username`/`name`).
- **Service endpoints** (`backend/app/main.py`).
  - Readiness.
  - The model catalogue: `get_model` with its path-traversal guard, and `list_models` with its sorted listing of regular files.

Each handler is a function or method of the request fields and of the state it reads. The environment is passed in as values:

- environment variables;
- the current time, as integer seconds;
- the working directory;
- the filesystem queries.

The cryptographic primitives are parameters with the properties the service relies on:

- **BLAKE2b** is a function from text to a 64-byte digest.
- **bcrypt** is the `Hasher` record. Under `SoundHasher`, a hash differs from its password, verifies against it, and verifies against no other password.
- **The JWT library** is the `JwtCodec` record. Under `SoundCodec`, a token decodes with its key, fails with any other key, and holds no whitespace.

Python behaviour the code depends on is written out. This covers:

- truthiness;
- `dict.get`;
- `str()` and `int()` on claim values;
- `str.split()` over Python's whitespace set;
- `str.lower()`;
- dictionary insertion order, which decides which user a name scan finds;
- the code-point ordering that `sorted` uses.

The files are:

| file | module |
|---|---|
| wrappers.dfy | `Option` and `Result` |
| pytext.dfy | case folding, splitting, joining, decimal numerals |
| pyvalues.dfy | Python values, truthiness, `str`, `int`, exceptions; HTTP failures |
| embeddings.dfy | the embedding engine |
| chunking.dfy | `chunk_text` and its reconstruction properties |
| user_model.dfy | the user record and `to_dict` |
| users.dfy | the user directory as a class over `_users` and `_next_id` |
| security.dfy | hasher and token contracts, `create_access_token`, `decode_access_token` |
| routers.dfy | `login`, `get_current_user`, `get_me` |
| legacy_auth.dfy | the older `auth.py` |
| paths.dfy | lexical `pathlib`: parse, `str`, `/`, `resolve`, `is_relative_to` |
| sorting.dfy | string order and `sorted` |
| service.dfy | readiness, `get_model`, `list_models` |

Some behaviour of the code is easy to get wrong, and the model keeps it as written:

- **Chunk count.** Non-empty text always gives at least one chunk. When `len <= overlap` there is exactly one chunk. Otherwise there are `ceil((len - overlap) / (chunk_size - overlap))` chunks. `Chunking.ChunkCountClosedForm` states both cases.
- **Zero overlap.** `chunk_text` accepts `overlap == 0`; only a negative overlap is refused.
- **Input length limit.** The default `max_input_chars` is 10000 characters.
- **Broken last line.** The last line of `backend/app/embeddings.py` is a stray line that is not Python, so the module as written does not import. The model describes the module without that line.

## Model

| member | source | states |
|---|---|---|
| Embeddings.Offset | backend/app/embeddings.py:30 | the byte offset `i * (64 // dim)` lies inside the digest, and is 0 for every component when `dim > 64` |
| Embeddings.OffsetBound | backend/app/embeddings.py:30 | the same bounds on the offset, for every `i < dim` |
| Embeddings.WindowLength | backend/app/embeddings.py:31 | the byte window has 1 to 4 bytes, and fewer than 4 exactly when the offset exceeds 60 |
| Embeddings.ComponentInRange | backend/app/embeddings.py:32-33 | every value `(v % 10000) / 5000 - 1` lies in [-1, 1) |
| Embeddings.Embedding | backend/app/embeddings.py:28-35 | the vector has exactly `dim` components (none when `dim <= 0`), each in [-1, 1) |
| Embeddings.Encoding | backend/app/embeddings.py:20-35 | TypeError exactly for non-strings, checked first. ValueError exactly for strings longer than the limit. Otherwise a vector of `dim` components (none when `dim <= 0`), each in [-1, 1) |
| Embeddings.ComponentFromWindow | backend/app/embeddings.py:29-33 | component `i` of an accepted text is the value of the big-endian window at offset `i * (64 // dim)` of its digest |
| Embeddings.LargeDimensionRepeats | backend/app/embeddings.py:29-33 | above 64 dimensions all components are equal |
| Embeddings.BatchEncoding | backend/app/embeddings.py:37-38 | on success, same length and order as the input, with element k equal to `encode(inputs[k])`. It fails exactly when some element fails, and then with the first failing element's error |
| Embeddings.EmbeddingEngine.constructor | backend/app/embeddings.py:16-18 | defaults `dim = 8`, `max_input_chars = 10000` |
| Embeddings.EmbeddingEngine.Encode | backend/app/embeddings.py:20-35 | the loop builds exactly the specified encoding, including its error cases |
| Embeddings.EmbeddingEngine.EncodeBatch | backend/app/embeddings.py:37-38 | a successful batch has one vector of `dim` components per input |
| Chunking.ChunkText | backend/app/embeddings.py:43-67 | the windowing loop returns exactly the specified chunking, errors included |
| Chunking.ChunkingErrors | backend/app/embeddings.py:48-56 | ValueError exactly when `chunk_size <= 0`, `overlap < 0` or `overlap >= chunk_size`, checked in that order with the messages "chunk_size must be > 0", "overlap must be >= 0" and "overlap must be less than chunk_size". With valid arguments, `[]` exactly for the empty text |
| Chunking.Chunking | backend/app/embeddings.py:43-67 | an error exactly for invalid arguments, always a ValueError; with valid arguments, no chunks exactly for the empty text |
| Chunking.ChunksFrom | backend/app/embeddings.py:58-67 | the windows from a start position are empty exactly when the start is at or past the end of the text |
| Chunking.ChunkAt | backend/app/embeddings.py:58-66 | chunk k is `text[k*step : min(k*step + chunk_size, len)]`, with `step = chunk_size - overlap` |
| Chunking.ChunkShape | backend/app/embeddings.py:58-66 | for non-empty text: at least one chunk; each chunk is non-empty and at most `chunk_size` long; the first starts at 0 and the last ends at `len(text)` |
| Chunking.LastChunkIsSuffix | backend/app/embeddings.py:61-65 | the loop stops on the chunk that reaches the end of the text |
| Chunking.ChunkCountFrom | backend/app/embeddings.py:61-66 | the number of chunks from a start position is 1 when the rest fits in one window, else 1 plus the ceiling of the length left after the first window over the step |
| Chunking.ChunkCountClosedForm | backend/app/embeddings.py:61-66 | the count is `ceil((len - overlap) / (chunk_size - overlap))` when `len > overlap`, and 1 otherwise |
| Chunking.CeilDivIsCeiling | backend/app/embeddings.py:61-66 | the recursive division used for the count is the ceiling of the quotient |
| Chunking.ConsecutiveChunksOverlap | backend/app/embeddings.py:62-66 | consecutive chunks share exactly `overlap` characters: the tail of one is the head of the next |
| Chunking.TailsOfContinuation | backend/app/embeddings.py:58-67 | the chunks' texts beyond their first `overlap` characters concatenate to the text after the first window's overlap |
| Chunking.Reconstruction | backend/app/embeddings.py:58-67 | the first chunk followed by every later chunk minus its first `overlap` characters rebuilds the text exactly |
| Chunking.TailsWithoutOverlap | backend/app/embeddings.py:58-67 | with overlap 0, stripping nothing is plain concatenation |
| Chunking.JoinReconstructsWithoutOverlap | backend/app/embeddings.py:58-67 | with overlap 0, `"".join(chunks)` is the text |
| Chunking.JoinWithOverlapRepeats | tests/test_embeddings_unit.py:34-39 | "abcdefghij" with size 4 and overlap 1 gives ["abcd", "defg", "ghij"], whose plain join differs from the text |
| Chunking.OverlapExample | tests/test_embeddings_unit.py:49-53 | "abcdefgh" with size 4 and overlap 2 gives ["abcd", "cdef", "efgh"] |
| UserModel.ToDict | backend/app/auth/models.py:15-24 | exactly the keys `id`, `username`, `is_active` and `is_admin`, holding the fields, and never `hashed_password` |
| UserModel.ToDictForgetsOnlyPassword | backend/app/auth/models.py:15-24 | two users have the same public view exactly when they differ at most in the password hash |
| UserModel.NewUserDefaults | backend/app/auth/models.py:9-13 | a new user is active and not an administrator |
| Users.FirstMatch | backend/app/auth/users.py:50-54 | the scan returns a user whose case-folded name matches and no earlier user in the order matches, or None exactly when no user in the order matches |
| Users.Indexed | backend/app/auth/users.py:24-32 | loaded records are stored under their own ids; every record's id is a key |
| Users.IndexRecords | backend/app/auth/users.py:24-32 | the insertion loop builds the indexed dictionary, and its key order is the records' ids in order of first appearance, each once |
| Users.IndexedKeys | backend/app/auth/users.py:24-32 | the keys of the loaded dictionary are exactly the records' ids |
| Users.IndexedLastWins | backend/app/auth/users.py:24-32 | the last record carrying an id is the one stored under it |
| Users.FirstSeen | backend/app/auth/users.py:24-32 | the key order lists each id once |
| Users.FirstSeenMembers | backend/app/auth/users.py:24-32 | the key order holds exactly the ids that occur in the records |
| Users.FirstSeenOrder | backend/app/auth/users.py:24-32 | the key order is the order of first appearance: wherever an id occurs in the records, every id listed before it has already occurred |
| Users.LoadCaseCollision | backend/app/auth/users.py:24-54 | loading "Bob" (id 1) then "bob" (id 2) gives key order [1, 2], and looking up "BOB" finds user 1 |
| Users.LargestKey | backend/app/auth/users.py:34-35 | `max(_users.keys())` is a key and bounds every key |
| Users.UserDirectory.constructor | backend/app/auth/users.py:9-10 | an empty directory with next id 1 satisfies the invariants |
| Users.UserDirectory.Load | backend/app/auth/users.py:13-35 | after loading: the dictionary is the indexed records and its order is the ids in order of first appearance; next id is 1 when nothing was loaded, else one more than the largest key; all invariants hold |
| Users.UserDirectory.GetUserById | backend/app/auth/users.py:40-44 | Some exactly when the id is a key, and then the user with that id |
| Users.UserDirectory.FindByUsername | backend/app/auth/users.py:46-54 | a found user is stored under its id and matches case-insensitively. None exactly when no user's case-folded name equals the case-folded query |
| Users.UserDirectory.GetUserByUsername | backend/app/auth/users.py:46-54 | the loop over the dictionary in insertion order returns the first case-insensitive match |
| Users.UserDirectory.CreateUser | backend/app/auth/users.py:56-77 | see the first note below the table |
| Users.UserDirectory.InitializeAdmin | backend/app/auth/users.py:98-121 | a non-empty directory is left alone. A missing or empty password creates nothing. Otherwise one active administrator is created, named `ADMIN_USERNAME` (default "admin") and holding the hash of the password |
| Users.UserDirectory.InitializeAdminAsWritten | backend/app/auth/users.py:105-118 | as the code is written: on an empty directory with a password set, the import at line 115 fails with ImportError |
| Users.UniqueNameLookup | backend/app/auth/users.py:46-54 | with unique case-folded names, the lookup finds exactly the user carrying the name |
| Users.BootstrapFreshDirectory | tests/test_auth.py:154-165 | on a fresh directory, the intended bootstrap creates admin user 1 with the administrator flag, while the code as written raises ImportError |
| Security.SoundHasherExists | backend/app/auth/security.py:14-26 | the hasher contract (hash differs from password, verifies it, rejects other passwords) is satisfiable |
| Security.CreateAccessToken | backend/app/auth/security.py:28-43 | under a sound codec the token is a single whitespace-free word that the library verifies, under the configured secret and HS256, to the claims with `exp` set |
| Security.AccessTokenClaims | backend/app/auth/security.py:32-39 | the signed claims are a copy of `data` with `exp` set. Every other key is kept and any given `exp` is replaced |
| Security.ExpiryRule | backend/app/auth/security.py:34-37 | a missing or zero delta gives 15 minutes; any other delta, negative included, is added to now |
| Security.DecodeAccessToken | backend/app/auth/security.py:44-55 | a decoded payload is what the library verified under the configured secret and algorithm, and it has not expired |
| Security.DecodeCreated | backend/app/auth/security.py:28-55 | before expiry, a token decodes under the same secret to the caller's claims plus `exp` |
| Security.DecodeRejectsExpired | backend/app/auth/security.py:28-55 | from the expiry time on, decoding gives None |
| Security.DecodeRejectsOtherSecret | backend/app/auth/security.py:40-52 | a token signed under one secret never decodes under another |
| Security.NegativeLifetimeExpiresImmediately | backend/app/auth/security.py:34-39 | a token issued with a lifetime of -1 second is already expired |
| Routers.LoginClaims | backend/app/auth/routers.py:122-130 | the login claims are `sub = str(id)`, `username`, `iat = now` and `exp = now + 30 minutes` |
| Routers.Login | backend/app/auth/routers.py:46-136 | 422 exactly when a field is empty; every other failure is a 401. Success exactly when the name is found, the user is active and the password verifies; the token type is then "bearer" |
| Routers.UnknownUserAndWrongPasswordAlike | backend/app/auth/routers.py:72-94 | an unknown name and a wrong password for an active user both get 401 "Incorrect username or password" |
| Routers.InactiveBeforePassword | backend/app/auth/routers.py:80-94 | when the name lookup finds an inactive user, login gets "Inactive user" whatever the password |
| Routers.LoginTokenClaims | backend/app/auth/routers.py:121-136 | before expiry, the issued token decodes to the login claims with the 30-minute `exp` |
| Routers.LoginTokenExpires | backend/app/auth/routers.py:121-131 | from 30 minutes after login, the issued token gets "Invalid or expired token" |
| Routers.AuthorizePayload | backend/app/auth/routers.py:187-221 | see the fourth note below the table |
| Routers.GetCurrentUser | backend/app/auth/routers.py:156-221 | see the fifth note below the table |
| Routers.BearerHeaderWords | backend/app/auth/routers.py:165 | `scheme + " " + token` splits into exactly the scheme and the token |
| Routers.SchemeCaseIgnored | backend/app/auth/routers.py:165-171 | any case of "bearer" authenticates the same way as "Bearer" |
| Routers.LoginThenAuthenticate | backend/app/auth/routers.py:121-221 | the token a login returns, sent back as `Bearer <token>` before it expires, authenticates the user who logged in |
| Routers.UsernameClaimUnchecked | backend/app/auth/routers.py:195-221 | the `username` claim only has to be truthy: payloads differing only there authorize alike |
| Routers.GetMe | backend/app/auth/routers.py:223-228 | `/auth/me` succeeds exactly when authentication does, with the user's public view, never the password hash |
| LegacyAuth.MakePrincipal | backend/app/auth.py:19-22 | the id is stored as `str(user_id)`; missing claims become `{}` |
| LegacyAuth.PrincipalDict | backend/app/auth.py:24-25 | keys are `user_id`, `username` and the claims. Claims override the two fields |
| LegacyAuth.VerifyJwt | backend/app/auth.py:28-43 | a missing or empty token gives "Missing authorization token", and every failure is a 401. A token the library rejects gives "Invalid token". A verified token past its `exp` gives "Token expired", and an `exp` that is not an integer is modelled as "Invalid token". Success exactly when the library verifies the token under the legacy secret and it has not expired; the payload is then returned |
| LegacyAuth.ClaimOr | backend/app/auth.py:55-56 | the primary claim when truthy, else the fallback claim |
| LegacyAuth.GetCurrentUser | backend/app/auth.py:46-59 | see the second note below the table |
| LegacyAuth.VerifySigned | backend/app/auth.py:28-43 | a live token signed with the legacy secret verifies to its claims |
| LegacyAuth.ExpiredIsReported | backend/app/auth.py:36-40 | an expired, correctly signed token gives "Token expired" |
| LegacyAuth.OtherSecretIsInvalid | backend/app/auth.py:36-42 | a token signed under another key gives "Invalid token" |
| LegacyAuth.DefaultSecretsDisagree | backend/app/auth.py:11 | with `AUTH_SECRET` unset, tokens from `create_access_token` are invalid here, because the default secrets differ |
| LegacyAuth.SubAndNameSuffice | backend/app/auth.py:55-59 | a token carrying only `sub` and `name` yields a principal with those values |
| LegacyAuth.ClaimsOverrideFields | backend/app/auth.py:24-25 | a `user_id` claim replaces the stored id in `dict()` |
| Paths.Components | backend/app/main.py:132 | path components drop the "." pieces and keep every other piece, ".." included |
| Paths.Parse | backend/app/main.py:60-61 | a parsed path is absolute exactly when the string starts with "/"; the split drops empty pieces and "." is dropped after it, so its components are non-empty, slash-free and not "." |
| Paths.PathText | backend/app/main.py:63-64 | `str(path)` of an absolute path starts with "/"; for a path of proper components the string is non-empty and starts with "/" exactly when the path is absolute |
| Paths.ParsePathText | backend/app/main.py:63-64 | `Path(str(p)) == p` for every parsed path |
| Paths.Join | backend/app/main.py:152 | `base / name`: an absolute name replaces the base, a relative one extends it |
| Paths.Resolve | backend/app/main.py:151-152 | a resolved path holds no empty, "." or ".." component |
| Paths.NormalizeCanonical | backend/app/main.py:151-152 | resolving from a canonical directory gives a canonical path |
| Paths.NormalizeAppend | backend/app/main.py:151-152 | resolving `xs + ys` is resolving `xs`, then `ys` from the result |
| Paths.NormalizePlain | backend/app/main.py:151-152 | plain components descend one level each |
| Paths.CanonicalIsFixed | backend/app/main.py:151 | a resolved directory resolves to itself |
| Paths.ResolveJoin | backend/app/main.py:151-152 | a relative name resolves from the model directory, an absolute one from the root |
| Paths.PlainNameStaysInside | backend/app/main.py:151-156 | a name without slashes, "." or ".." resolves to the directory's entry and is inside it |
| Paths.DescendingNameStaysInside | backend/app/main.py:151-156 | a relative name without ".." resolves below the directory |
| Paths.ParentEscapes | backend/app/main.py:151-162 | ".." escapes every model directory but the root |
| Paths.AbsoluteNameIgnoresBase | backend/app/main.py:151-152 | an absolute name resolves the same whatever the model directory |
| Sorting.StrLeqReflexive | backend/app/main.py:137 | string order is reflexive |
| Sorting.StrLeqTotal | backend/app/main.py:137 | string order is total |
| Sorting.StrLeqAntisymmetric | backend/app/main.py:137 | string order is antisymmetric |
| Sorting.StrLeqTransitive | backend/app/main.py:137 | string order is transitive |
| Sorting.Insert | backend/app/main.py:137 | insertion keeps the elements and adds one |
| Sorting.InsertSorted | backend/app/main.py:137 | insertion into a sorted list keeps it sorted |
| Sorting.AllAtLeastPermutation | backend/app/main.py:137 | a lower bound on a list bounds every rearrangement of it |
| Sorting.Sort | backend/app/main.py:137 | `sorted` returns an ascending rearrangement of its input |
| Sorting.SortedUnique | backend/app/main.py:137 | two ascending rearrangements of the same elements are equal, so every correct sort agrees with the model |
| Sorting.SortIgnoresOrder | backend/app/main.py:137 | the sorted listing does not depend on the order entries come in |
| Service.ReadinessDetails | backend/app/main.py:45-69 | see the third note below the table |
| Service.CheckReadiness | backend/app/main.py:45-69 | the step-by-step details are the specified ones. ok holds in local mode, and otherwise exactly when both paths exist |
| Service.Ready | backend/app/main.py:83-89 | 200 "ready" when ready, else 503 "not-ready", with every detail merged into the body |
| Service.LocalModeReady | backend/app/main.py:50-57 | with `MODE` unset or "local", the service is ready and `db_ok` is None |
| Service.MissingDatabaseNotReady | backend/app/main.py:60-69 | in any other mode a missing database means not ready, with `db_ok` false |
| Service.ReadyIffChecksPass | backend/app/main.py:65-68 | outside local mode, ready exactly when both reported checks are true |
| Service.ModelDir | backend/app/main.py:151 | the resolved model directory is canonical |
| Service.ModelPath | backend/app/main.py:152 | the resolved candidate path is canonical |
| Service.GetModel | backend/app/main.py:148-168 | 403 "invalid model name" exactly when the resolved path is outside the model directory. 404 "model not found" exactly when it is inside but is not an existing regular file. Otherwise the file's name, size and mtime |
| Service.ForbiddenIgnoresFiles | backend/app/main.py:151-162 | the 403 decision consults no file |
| Service.PlainNameLookup | backend/app/main.py:151-168 | a plain name succeeds exactly when the directory's entry of that name is an existing regular file, and reports that name |
| Service.ParentNameForbidden | backend/app/main.py:151-162 | ".." is refused with 403 unless the model directory is the root |
| Service.AbsoluteNameForbidden | backend/app/main.py:151-162 | an absolute name outside the model directory is refused with 403 |
| Service.FileNames | backend/app/main.py:137-138 | the filter keeps only names of regular files among the entries |
| Service.ListModels | backend/app/main.py:126-145 | `[]` when the model directory is missing or not a directory. Otherwise the entries for the regular files among the sorted entry names |
| Service.EntriesDescribeFiles | backend/app/main.py:137-144 | the listing has one entry per regular file, in order, with that file's name, size and mtime |
| Service.FileNamesSorted | backend/app/main.py:137-138 | filtering a sorted listing keeps it sorted |
| Service.FileNamesCount | backend/app/main.py:137-138 | each regular file appears as often as in the listing; other entries never appear |
| Service.ListingIsSortedFiles | backend/app/main.py:137-145 | the listed names are the sorted list of the directory's regular files, whatever order the directory yields them in |
| PyText.Lower | backend/app/auth/users.py:50-52 | lower-casing keeps the length and folds each character |
| PyText.SplitOn | backend/app/auth/routers.py:165 | `split()` pieces are non-empty and hold no separator |
| PyText.SplitTwo | backend/app/auth/routers.py:165 | two whitespace-free words joined by one space split into exactly those words |
| PyText.SplitOfJoin | backend/app/main.py:63-64 | splitting undoes joining for non-empty, separator-free pieces |
| PyText.ParseIntOfDecimal | backend/app/auth/routers.py:125 | `int(str(i)) == i` for every integer |
| PyText.DecimalDigitsRoundTrip | backend/app/auth/routers.py:125 | the digits of a natural number read back as that number |
| PyValues.ToInt | backend/app/auth/routers.py:203 | `int()` of an integer is itself; of a string, defined exactly when the string is a numeral |
| PyValues.IntOfStrOfInt | backend/app/auth/routers.py:125 | the `sub` claim written by login reads back as the user id |

Notes to the table:

1. `Users.UserDirectory.CreateUser`:
   - A case-insensitive duplicate gives ValueError "Username '<name>' already exists", and the directory is unchanged.
   - Otherwise the user is inserted with id equal to the old next id, the given name, hash and admin flag, and `is_active = True`.
   - The next id grows by 1, and the other entries are unchanged.
   - The directory invariants and name uniqueness are preserved.
2. `LegacyAuth.GetCurrentUser`:
   - No credentials gives "Authorization header missing or malformed".
   - A verification failure is passed through unchanged: "Missing authorization token", "Token expired" or "Invalid token".
   - After verification, a falsy id (`user_id`, else `sub`) or a falsy name (`username`, else `name`) gives "Missing required user claims".
   - Success exactly when verification succeeds and both are truthy. The principal then holds `str(id)`, the name and the payload.
3. `Service.ReadinessDetails`:
   - In local mode the details are `mode` plus `db_ok` and `indexes_ok` set to None.
   - Otherwise they are `mode`, both path strings and both existence results.
   - They never contain `status`.
4. `Routers.AuthorizePayload`, the checks in order:
   - A falsy `sub` gives "Invalid token payload - missing user ID (sub claim)".
   - Then a falsy `username` gives "Invalid token payload - missing username".
   - Then `int(sub)` is taken. When it raises, the error is not handled and propagates as the exception.
   - An id with no user gives "User not found". An inactive user gives "Inactive user".
   - Success exactly when all these checks pass, with the directory's user stored under that id.
5. `Routers.GetCurrentUser`:
   - An absent or empty header gives the missing-header error.
   - A header that does not split into two words gives the format error.
   - A scheme other than "bearer" in any case gives the scheme error.
   - A token that does not decode, or decodes to an empty payload, gives "Invalid or expired token".
   - Otherwise the result is that of the payload checks in note 4. A returned user is an active directory user.

## Left out

- Prometheus metrics are not modelled. This covers `_safe_metric`, the counters, histograms and gauges, `MetricsMiddleware` and `/metrics`, all of which sit on a global registry with asynchronous middleware.
- `health` and `uptime_seconds` are not modelled, because they read the wall clock as a float.
- User persistence is not modelled: `_load_users` reading `users.json` and `_save_users` writing it are file I/O. `Users.UserDirectory.Load` takes the already parsed records, and `CreateUser` does not write anything.
- `_load_users` is modelled as running on an empty directory, its only use at import time.
- `print` calls in `initialize_admin` become the returned `AdminOutcome`.
- Users.UserDirectory.NamesUnique: not part of `Valid()`, because a loaded `users.json` may hold names that differ only in case. `CreateUser` preserves uniqueness when it holds.
- PyText.Lower: folds ASCII letters only; Python's `str.lower()` also folds other scripts.
- PyText.ParseInt: does not accept the surrounding whitespace, the digit-group underscores or the non-ASCII decimal digits (such as Arabic-Indic `١٢`) that Python's `int()` accepts.
- PyValues.Value: has no float, list or dict case. A claim holding one of those is not modelled; `int()` of a float, for instance, truncates in Python.
- The bcrypt salt and work factor are not modelled. The `Hasher` is deterministic, which is all the service relies on.
- Security.SoundHasher: assumes a hash verifies against no other password. bcrypt compares only the first 72 bytes of a password, so two passwords sharing those bytes verify alike; `Routers.UnknownUserAndWrongPasswordAlike` relies on this assumption.
- Security.SoundHasher: assumes every stored hash can be checked. passlib raises ValueError on a stored hash it cannot identify, which makes `login` fail with a 500; that path is not captured.
- Security.SoundCodec: assumes any claims dictionary round-trips. python-jose rejects a non-string `sub` claim, and both python-jose and PyJWT reject a token carrying `aud` when no audience is given. `Security.DecodeCreated`, `LegacyAuth.VerifySigned` and the lemmas built on them hold for every `data` only under this assumption.
- The JWT encoding, base64url and HMAC are not modelled. The `JwtCodec` stands for both python-jose and PyJWT.
- LegacyAuth.VerifyJwt: an `exp` that is not an integer is modelled as "Invalid token". PyJWT converts `exp` with `int()` first, so a numeric string or a boolean is compared as a number, and a null `exp` raises TypeError, which the `except jwt.InvalidTokenError` at auth.py:41 does not catch (a 500).
- Service.Exists: ".." is collapsed lexically before the filesystem is asked. Python's `exists()` and `is_dir()` follow ".." physically, so "missing/../data/db.sqlite" is absent when `missing` does not exist, while the model asks about "data/db.sqlite". `Service.ListModels` has the same gap for `MODEL_DIR`.
- Security.DecodeAccessToken: both libraries are modelled as treating a token as expired when `now >= exp`. python-jose still accepts a token in the exact second of `exp`. Leeway, `iat`/`nbf` checks and non-integer time coercions are also left out.
- Timestamps are integer seconds. The JWT libraries truncate `datetime` values the same way.
- Routers.Login: the second, identical round of lookup, activity and password checks (lines 96-119) appears once. The directory does not change between the two rounds, so they decide identically.
- Request parsing is not modelled: `Body(...)` validation of missing fields, form input, and the FastAPI status and header plumbing.
- `request.state.user = user` is not modelled, because it only stores the result.
- Users are values. `create_user`, `get_user_by_id` and `get_user_by_username` return the stored `User` object itself, and a caller that sets `is_active` on it deactivates the stored user (tests/test_auth.py:207-208 does this). That aliasing and in-place deactivation are not captured.
- LegacyAuth.GetCurrentUser: takes the credentials `HTTPBearer` extracts (absent when the header is missing or not a bearer header). The header parsing inside `HTTPBearer` is not modelled.
- The legacy `AUTH_SECRET` is read once at import time in the source. The model passes it as a parameter.
- Paths.Resolve: resolution is lexical. Symbolic links are not followed, so a link inside the model directory that points outside it is not captured.
- Paths.Parse: POSIX's special meaning of exactly two leading slashes is not modelled.
- Existence, file and directory tests, `stat` and `iterdir` are the `FileSystem` record's functions. They are not interpreted further.
- Service.GetModel: FastAPI path parameters cannot contain "/". The model still treats any string as a name, which also covers direct calls.
- Service.ModelInfo: `st_mtime` is a `real`, with no floating-point rounding.
- Embeddings: floats are `real`, so the rounding of `(v % 10000) / 5000.0 - 1.0` to double precision is not modelled.
- Embeddings: UTF-8 encoding before hashing is part of the `blake2b` parameter. Dafny strings cannot hold a lone surrogate, so the UnicodeEncodeError that `text.encode('utf-8')` raises on one is not modelled.
- The length limit counts characters, as the source does.

## Findings

| source | as written | input that shows it | evidently intended | confidence | as-written member | corrected member |
|---|---|---|---|---|---|---|
| backend/app/auth/users.py:115 | `from backend.app.auth.security import get_password_hash`, a name the security module defines only as the static method `Hasher.get_password_hash` | an empty directory with `ADMIN_PASSWORD` set: ImportError, no admin user | hash with `Hasher.get_password_hash` and create admin user 1 | not executed | Users.UserDirectory.InitializeAdminAsWritten | Users.UserDirectory.InitializeAdmin |
| tests/test_embeddings_unit.py:34-39 | asserts `"".join(chunk_text(t, 4, 1)) == t` | t = "abcdefghij": the chunks are "abcd", "defg", "ghij" and the join is "abcddefgghij" | the first chunk plus each later chunk without its first `overlap` characters rebuilds the text | not executed | Chunking.JoinWithOverlapRepeats | Chunking.Reconstruction |
