# adotai-api core in Dafny

adotai-api is the back end of a pet-adoption service. Institutions (ONGs and city halls)
register pets. Every change of a pet's adoption status goes into an append-only status
ledger, and each pet carries an `isAvailable` flag derived from that ledger. Users and
institutions register and log in. The `authMiddleware` request gate checks the session token
before the pet routes that create, update or delete a pet and before the status-change route
(src/routes/pet.routes.ts:18,33,48, src/routes/pet-status.routes.ts:17). A second gate,
`ensureAuthenticated` (src/middlewares/auth.ts), is defined but no route mounts it.

This project models that core:

- **Store** (`store.dfy`): the persistence layer as one `Database` class.
  - It holds four tables as sequences: pets, status events, institutions and users.
  - An id generator stands for the store's generated uuids.
  - A clock gives every status event a strictly later `createdAt`.
  - `Valid()` is the invariant every operation keeps: unique keys, and every pet's flag equal
    to "its current status is DISPONIVEL".
- **Ledger** (`ledger.dfy`): a pet's history (its events, newest first) and its current status
  (the head of that history), as functions of the event sequence.
- **Pet registry** (`pet_service.dfy`) and **status service** (`pet_status_service.dfy`).
  - Creation, partial update, deletion and status recording are methods that change the
    `Database`.
  - Listing, lookup and the current-status query are functions over the tables.
- **Registration** (`institution_service.dfy`, `user_service.dfy`): uniqueness guards,
  hash-then-insert, and the password-free profile returned.
- **Login** (`auth_service.dfy`): lookup by email, password comparison, token signing and the
  session response.
- **Request gates** (`auth_middleware.dfy`, `ensure_authenticated.dfy`) and the string
  operations they use (`text.dfy`): JavaScript `replace`, `trim` and `split`.
- **Pet controller** (`pet_controller.dfy`): query decoding, and the mapping from service
  outcomes to HTTP status codes.

bcrypt's `hash`/`compare` and jsonwebtoken's `sign`/`verify` are uninterpreted function
parameters. Environment variables are optional strings passed in.

Two behaviours of the code are easy to miss:

- `GET /pets` always filters on availability. The controller passes
  `isAvailable === 'true'` (src/controllers/pet.controller.ts:75), so leaving the query value
  out lists only unavailable pets (`PetController.ListingAvailabilityFilter`). No query lists
  available and unavailable pets together.
- The ownership checks of `update`, `delete` and `createStatus` compare the stored
  `institutionId` with the caller's id only. The caller's principal kind is not checked
  there. The pet routes sit behind `authMiddleware`, which lets user tokens through as well.

## Model

| member | source | states |
|---|---|---|
| Domain.FindFirst | src/services/pet.service.ts:115-117 | the scan behind `findUnique`/`findFirst`: a found position satisfies the condition and no earlier row does; none found means no row does |
| Domain.FindInstitution | src/controllers/pet.controller.ts:29-31 | `findUnique` by id: a found row is stored and has that id; none found means no stored row has it |
| Ledger.History | src/services/pet-status.service.ts:61-77 | the history holds exactly the pet's events, each as many times as in the ledger, and nothing of other pets |
| Ledger.HistoryIsNewestFirst | src/services/pet-status.service.ts:62-64 | on a chronological ledger the history is strictly decreasing in `createdAt` (`orderBy createdAt desc`) |
| Ledger.CurrentIsLatest | src/services/pet-status.service.ts:80-82 | the current status is absent exactly when the pet has no event; otherwise it is one of the pet's events and none of them is later |
| Ledger.HistoryAfterAppend | src/services/pet-status.service.ts:32-38 | an appended event heads its pet's history; other pets' histories are unchanged |
| Ledger.CurrentAfterAppend | src/services/pet-status.service.ts:32-38 | an appended event becomes its pet's current status; other pets' current status is unchanged |
| Ledger.AppendKeepsChronological | src/services/pet-status.service.ts:32-38 | appending an event later than every stored one keeps the ledger chronological |
| Store.PetIndex | src/services/pet.service.ts:115-117 | `findUnique({ where: { id } })`: a found position holds that id; none found means no row has it |
| Store.SetKeepsPetIdsUnique | src/services/pet.service.ts:127-130 | overwriting a row without changing its id keeps ids unique |
| Store.OnlyRowWithId | src/services/pet.service.ts:115-117 | with unique ids, the row found by id is the only row with that id |
| Store.RecordKeepsAvailability | src/services/pet-status.service.ts:51-56 | appending an event and setting that pet's flag to (status == DISPONIVEL) makes every flag agree, if all others agreed before |
| Store.RecordKeepsWellFormed | src/services/pet-status.service.ts:32-56 | recording an event with a fresh id and the current time, and writing the flag, keeps the tables well formed |
| PetStatusService.CreateStatus | src/services/pet-status.service.ts:19-59 | absent pet fails with "Pet não encontrado" first; another institution's pet fails with the permission message; failures write nothing; success appends exactly one event with the given fields and returns it, sets only that pet's `isAvailable` to (status == DISPONIVEL), makes the event current, leaves institutions and users as they were, draws one id and one clock tick, and restores `Valid()` |
| PetStatusService.RecordStatus | src/services/pet-status.service.ts:32-56 | the two writes: the event with fresh id and time is appended, only that pet's flag changes, id counter and clock advance by one, the event becomes current, well-formedness is kept, and every flag agrees if the others did |
| PetStatusService.GetCurrentStatus | src/services/pet-status.service.ts:79-98 | fails with "Nenhum status encontrado para este pet" exactly when the history is empty; otherwise returns the history's head, an event of that pet |
| PetService.NewPet | src/services/pet.service.ts:36-42 | the inserted row copies the supplied fields, is owned by the caller and is available |
| PetService.ApplyPatch | src/services/pet.service.ts:114-130 | a supplied field takes the supplied value, an omitted one keeps the old value; id, owner and `isAvailable` never change |
| PetService.Filter | src/services/pet.service.ts:57-62 | the matching pets: every match as many times as in the table, and only matches |
| PetService.CeilDiv | src/services/pet.service.ts:86 | `Math.ceil(n / d)`: the least r with r·d ≥ n |
| PetService.Window | src/services/pet.service.ts:67-68 | `skip`/`take`: at most `limit` elements, the k-th being element `skip + k` |
| PetService.WindowWithin | src/services/pet.service.ts:67-68 | every element of a page is an element of the listed sequence |
| PetService.FindAll | src/services/pet.service.ts:54-88 | same filter for count and items; `page` echoed; `total` = number of matches; `totalPages` = ceil(total / limit); at most `limit` items, the k-th being match `(page-1)*limit + k`; a non-empty page lies within the matches and a short page reaches their end; every item is a stored matching pet |
| PetService.FindById | src/services/pet.service.ts:90-112 | succeeds exactly when a pet with that id is stored, returning it; otherwise fails with "Pet não encontrado" |
| PetService.Create | src/services/pet.service.ts:35-52 | inserts `NewPet` as the last row, appends exactly one DISPONIVEL event for it by the same institution with the fixed description, returns the row, leaves institutions and users as they were, draws two ids and one clock tick, keeps `Valid()`, and the pet's current status is DISPONIVEL |
| PetService.InsertPet | src/services/pet.service.ts:36-42 | the row is appended and found by its new id; all other pets keep agreeing flags |
| PetService.LastRowFound | src/services/pet.service.ts:36-42 | with unique ids, the lookup of the last row's id finds the last row |
| PetService.InsertKeepsValidExcept | src/services/pet.service.ts:36-42 | inserting a pet with a fresh id keeps the tables well formed and every other flag agreeing |
| PetService.Update | src/services/pet.service.ts:114-133 | absent pet fails with "Pet não encontrado" first; another institution's pet fails with the update-permission message; failures write nothing; success replaces only that row with `ApplyPatch` of it, leaves the ledger, the other tables, the id counter and the clock as they were, and keeps `Valid()` |
| PetService.PatchKeepsAvailability | src/services/pet.service.ts:127-130 | a typed partial update leaves every flag agreeing with the ledger |
| PetService.Delete | src/services/pet.service.ts:135-151 | the same two checks in the same order with the delete-permission message; failures write nothing; success removes exactly that row, leaves the ledger, the other tables, the id counter and the clock as they were, and keeps `Valid()` |
| PetService.RemoveKeepsValid | src/services/pet.service.ts:147-149 | removing a row keeps the tables well formed and every remaining flag agreeing; no remaining row has that id |
| Text.IndexOf | src/middlewares/auth.middleware.ts:27 | the first position where the pattern occurs, or none when it does not occur |
| Text.ReplaceFirst | src/middlewares/auth.middleware.ts:27 | `replace` with a string pattern: only the first occurrence is replaced; no occurrence gives the string back |
| Text.ReplacePrefix | src/middlewares/auth.middleware.ts:27 | a string starting with the pattern has its first occurrence at 0, and `replace` swaps that prefix |
| Text.TrimStart | src/middlewares/auth.middleware.ts:27 | a suffix that does not start with white space; all removed characters are white space |
| Text.TrimEnd | src/middlewares/auth.middleware.ts:27 | a prefix that does not end with white space; all removed characters are white space |
| Text.Trim | src/middlewares/auth.middleware.ts:27 | `trim`: a slice of the input, with only white space around it, that neither starts nor ends with white space |
| Text.TrimKeepsTrimmed | src/middlewares/auth.middleware.ts:27 | trimming an already trimmed string gives it back |
| Text.Split | src/middlewares/auth.ts:24 | `split` on one character: at least one piece, no piece contains the separator, and joining with it gives the input back |
| Text.SplitNoSeparator | src/middlewares/auth.ts:24 | a string without the separator splits into itself alone |
| Text.SplitAtFirst | src/middlewares/auth.ts:24 | the piece before the first separator comes first, then the pieces of the rest |
| InstitutionService.ParseInstitutionType | src/services/InstitutionService.ts:35-37 | accepts exactly "ONG" and "PREFEITURA", and the accepted kind spells the input |
| InstitutionService.ParseNameRoundTrip | src/services/InstitutionService.ts:35-37 | every kind's own spelling parses back to it |
| InstitutionService.FindByEmailOrCnpj | src/services/InstitutionService.ts:39-43 | a found row matches the email or the cnpj; none found means no row matches either |
| InstitutionService.NewInstitution | src/services/InstitutionService.ts:49-66 | the stored password is `hash(password, 10)`; all other fields are copied |
| InstitutionService.ProfileOf | src/services/InstitutionService.ts:68-77 | the profile carries id, name, email, cnpj, type, responsible name, city and state, and no password |
| InstitutionService.InsertKeepsKeysUnique | src/services/InstitutionService.ts:39-51 | inserting a row that clashes on neither email nor cnpj keeps both unique |
| InstitutionService.Create | src/services/InstitutionService.ts:21-78 | an invalid kind fails first, before any lookup; then an email or cnpj clash fails; failures store nothing; success appends exactly one row, draws one id, leaves the clock and the other tables as they were, and returns its profile; keys stay unique |
| UserService.FindByEmailOrCpf | src/services/UserService.ts:18-22 | a found row matches the email or the cpf; none found means no row matches either |
| UserService.NewUser | src/services/UserService.ts:28-41 | the stored password is `hash(password, 10)`; all other fields are copied |
| UserService.ProfileOf | src/services/UserService.ts:43-50 | the profile carries id, name, email, cpf, city and state, and no password |
| UserService.InsertKeepsKeysUnique | src/services/UserService.ts:18-30 | inserting a row that clashes on neither email nor cpf keeps both unique |
| UserService.Create | src/services/UserService.ts:17-51 | an email or cpf clash fails with "E-mail ou CPF já cadastrado" and stores nothing; success appends exactly one row, draws one id, leaves the clock and the other tables as they were, and returns its profile; keys stay unique |
| AuthService.OrDefault | src/config/auth.ts:3-4 | `env || default`: an absent or empty value gives the default |
| AuthService.LoadJwtConfig | src/config/auth.ts:1-6 | the secret defaults to "adotai-secret-key" and the lifetime to "7d" |
| AuthService.Blank | src/services/AuthService.ts:69-70 | `value || undefined`: an empty string becomes absent; anything else is kept |
| AuthService.FindUserByEmail | src/services/AuthService.ts:38-40 | a found user has that email; none found means no user has it |
| AuthService.FindInstitutionByEmail | src/services/AuthService.ts:78-80 | a found institution has that email; none found means no institution has it |
| AuthService.AuthenticateUser | src/services/AuthService.ts:37-75 | succeeds exactly when the email is known and the password compares equal to the stored hash; every failure is `AppError("Email ou senha incorretos", 401)`; success signs `{ type: 'user' }` for the user's id with the configured secret and lifetime, and returns id, name, email, city and state (empty as absent) |
| AuthService.AuthenticateInstitution | src/services/AuthService.ts:77-115 | the same two failure cases with the same error; success signs `{ type: 'institution' }` for the institution's id and returns its stored type, name, email, city and state |
| AuthService.UserFailuresIndistinguishable | src/services/AuthService.ts:42-50 | an unknown email and a wrong password give the identical result |
| AuthService.FindNewUser | src/services/UserService.ts:28-41 | after appending a user whose email is new, the email lookup finds it |
| AuthService.FindNewInstitution | src/services/InstitutionService.ts:49-66 | after appending an institution whose email is new, the email lookup finds it |
| AuthService.UserRegisterThenLogin | src/services/AuthService.ts:37-62 | credential round trip: after registration, login with the same email and password succeeds for the new id and signs a user token for it (given `compare` accepts a password against its own hash) |
| AuthService.InstitutionRegisterThenLogin | src/services/AuthService.ts:77-102 | the same round trip for institutions, carrying the registered kind |
| AuthMiddleware.BearerToken | src/middlewares/auth.middleware.ts:27 | the token is the header with its first "Bearer " removed, then trimmed; a header without it is just trimmed |
| AuthMiddleware.BearerHeaderYieldsToken | src/middlewares/auth.middleware.ts:27 | "Bearer " followed by t yields t trimmed |
| AuthMiddleware.Gate | src/middlewares/auth.middleware.ts:20-61 | missing header → 401 "Não autorizado" before verification; unverifiable token → 401 "Token inválido"; institution token with no stored institution → 401 "Instituição não encontrada"; otherwise passes with `{ id: sub, type }` |
| AuthMiddleware.GatePassesExactly | src/middlewares/auth.middleware.ts:36-56 | the gate passes exactly when the header is present, the token verifies and an institution subject is stored; a passed institution principal is a stored institution |
| AuthMiddleware.UserTokensNeverLookedUp | src/middlewares/auth.middleware.ts:36 | for a user token the decision does not depend on the institution table |
| EnsureAuthenticated.SecondField | src/middlewares/auth.ts:24 | the second piece of the header split on a space, present exactly when there are two or more pieces, and free of spaces |
| EnsureAuthenticated.SchemeHeaderYieldsToken | src/middlewares/auth.ts:24 | "scheme t", with no space in either part, yields t |
| EnsureAuthenticated.Gate | src/middlewares/auth.ts:13-39 | missing header throws `AppError("JWT token não informado", 401)`; succeeds exactly when there is a second field and it verifies; every other failure is `AppError("Token JWT inválido", 401)`; success attaches `{ id: sub, type }` |
| PetController.ToResponse | src/controllers/pet.controller.ts:46-52 | a service error becomes the error status with `{ error: message }`; a success becomes the success status with its body |
| PetController.DecodeQuery | src/controllers/pet.controller.ts:60-76 | page defaults to 1 and limit to 10; string filters pass through; `isAvailable` is always supplied, true exactly for the text "true" |
| PetController.FindAll | src/controllers/pet.controller.ts:58-85 | 200 with the service's page for the decoded query |
| PetController.ListingAvailabilityFilter | src/controllers/pet.controller.ts:75 | every listed pet is stored and is available exactly when the query value is "true"; an absent value lists only unavailable pets |
| PetController.FindById | src/controllers/pet.controller.ts:87-103 | 200 with a stored pet of that id when one exists; otherwise 404 with "Pet não encontrado" |
| PetController.Create | src/controllers/pet.controller.ts:24-56 | no stored institution for the caller → 400 "Instituição não encontrada" and nothing written; otherwise 201 with the new row, which is owned by the caller; the ledger gains exactly its DISPONIVEL event, institutions and users are unchanged, and its current status is DISPONIVEL |
| PetController.Update | src/controllers/pet.controller.ts:105-119 | 200 with the patched pet, only that row replaced and everything else unchanged; or 400 with the service's message (absent pet, then another owner) and nothing written |
| PetController.Delete | src/controllers/pet.controller.ts:121-134 | 204 without a body, exactly that row removed and the ledger, other tables, id counter and clock unchanged; or 400 with the service's message and nothing written |
| PetController.ApplyRawBody | src/services/pet.service.ts:127-130 | the row written from the body as forwarded: the typed fields exactly as the typed patch writes them, plus `isAvailable` and `institutionId` if present; the id is kept |
| PetController.RawBodyWithoutProtectedKeys | src/controllers/pet.controller.ts:107-111 | a forwarded body without the two protected keys writes the same row as the typed patch |
| PetController.RawBodyBreaksInvariants | src/controllers/pet.controller.ts:107-111 | a body with the negated flag breaks any pet's agreement with its ledger; a body with another institution id hands the pet over |

In the model, status values are the four `PetStatusType` constructors
(src/services/pet-status.service.ts:3), so the model stores no other status. This is the
model's restriction: the status route forwards `req.body.status` unchecked
(src/controllers/pet-status.controller.ts:49-55), that type exists only at compile time, and
in the code the store's column type decides which values are accepted.

## Left out

- I/O: the persistence engine (Prisma), its connections and `$disconnect`, console logging,
  CORS, static serving and photo contents. The four tables are in-memory sequences, and photos
  are an opaque sequence of strings.
- Uploads (`upload.service.ts`, `upload.middleware.ts`): network and filesystem I/O; they are
  not part of this model.
- The other controllers, the routes and the server entry point: they pass values through
  without logic of their own.
- Cryptography: `hash`, `compare`, `sign` and `verify` are uninterpreted parameters. Salt
  randomness, token expiry against a real clock, and the `iat`/`exp` claims are not modelled.
- Time: `createdAt` is a strictly increasing counter. Real timestamps, and ties between them,
  are not modelled.
- Identifiers: generated uuids are natural numbers drawn from a counter that never repeats.
- PetService.Create: the pet insert (src/services/pet.service.ts:36-42) and the `createStatus`
  call (src/services/pet.service.ts:44-49) are separate awaited writes with no transaction. The
  model performs both in one method. In the code, between the two writes the new pet has no
  status event, so `getCurrentStatus` fails with "Nenhum status encontrado para este pet"
  (src/services/pet-status.service.ts:94-96), and `Database.Valid()`, which requires every pet
  to have a current status, does not hold. If the second write fails, the pet row stays
  without any status and the controller answers 400 (src/controllers/pet.controller.ts:46-52)
  although the row exists. The model claims nothing about that window or that failure.
- Atomicity: `createStatus` writes the event and the flag as two separate statements with no
  transaction. The model performs both in one method, and claims nothing about crashes or
  concurrent requests between the two writes.
- Related records: `include`/`select` of the owning institution in listings, lookups and
  history are not modelled.
- Persistence faults: a failing store call, and so the controllers' catch branches for
  `create`, `findAll` and `delete` when the service cannot fail, are only present through
  `PetController.ToResponse`.
- PetService.Delete: the store's delete rule for status events of a deleted pet is not
  modelled; the Prisma schema that sets it (`onDelete`) is not part of this model. The model
  removes the pet row and keeps its events. A restricting rule would make the delete fail for
  every pet with a history, and a cascading rule would remove the events too.
- PetController.ApplyRawBody: the forwarded body can also carry `id`, which `update` would
  write too; the model's raw body has only the typed fields, `isAvailable` and
  `institutionId`, and keeps the id. Likewise `create` spreads `req.body`
  (src/controllers/pet.controller.ts:39-44) into `...petData` (src/services/pet.service.ts:38),
  where only `institutionId` and `isAvailable` are overridden, so a client can choose a new
  pet's id; `PetService.Create` takes the id from the store's counter instead.
- PetService.FindAll: matches are listed in insertion order. The code's `findMany` has no
  `orderBy`, so the store may list them in any order; which pets a page holds is stated for
  insertion order only.
- PetService.FindAll: requires `page ≥ 1` and `limit ≥ 1`. Non-numeric query values (`NaN`
  from `Number`), zero or negative pages and limits are passed to the store unchecked by the
  source and are not modelled.
- PetController.FindAll: requires the decoded page and limit to be at least 1, for the same
  reason.
- PetController.Create: `PetService.Create` cannot fail in the model, so the 400 answer for a
  failed creation is covered only by `PetController.ToResponse`.
- Request gates: the `jwt.verify` exceptions and the principal-kind check are modelled as
  `verify` returning no payload. A payload whose `type` is neither `'user'` nor
  `'institution'` is not modelled.

## Findings

| source | as written | input that shows it | evidently intended | confidence | as-written member | corrected member |
|---|---|---|---|---|---|---|
| src/controllers/pet.controller.ts:107-111 | `update` forwards `req.body` unfiltered, and `prisma.pet.update({ data: petData })` writes every column in it (src/services/pet.service.ts:127-130). The exclusion of `isAvailable` and `institutionId` from partial updates exists only in the TypeScript type. The body can carry `id` as well, and `create` spreads `req.body` (src/controllers/pet.controller.ts:39-44) under only the `institutionId` and `isAvailable` overrides, so a client can also choose a new pet's id (not modelled). | `PUT /pets/:id` by the owner with body `{ "isAvailable": false }` for a pet whose current status is DISPONIVEL (or `{ "institutionId": "<another institution>" }`) | only the typed fields are written, so the flag stays derived from the ledger and the owner never changes | high (the body reaches the store unfiltered); not executed | PetController.RawBodyBreaksInvariants | PetService.PatchKeepsAvailability |
