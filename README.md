# User management system: a verified model

This project models the core of a small user-management system. The backend is Express, Sequelize/MySQL, bcrypt and JSON Web Tokens, and the model covers:

- the `User` table and its schema constraints;
- the `register`, `login`, `listUsers`, `getUser`, `updateUser` and `deleteUser` controllers;
- the authentication and admin gates, and the way the routers chain them;
- the registration rule set and the upload filter;
- the web client's fail-fast registration validator.

The database, bcrypt and the JWT library are abstracted:

- The table is a class holding a map from primary key to record plus the auto-increment counter. Its invariant is the schema: keys are primary keys, emails are unique, phones are unique, every column fits its width, and the email passes the model's `isEmail` validator.
- A bcrypt digest is the key it was computed from: the first 72 bytes of the password's UTF-8 encoding (`UserModel.BcryptKey`). Whatever else ends up in the password column matches no password.
- A signed token records its secret, its claims and its expiry. Verification checks the secret and the expiry. The two secrets, `JWT_SECRET` and `REFRESH_SECRET`, are values of the environment (`Tokens.Secrets`), and nothing makes them differ.
- Decoding the compact token text is a function parameter (`parse`).
- validator.js's `isEmail` and `isNumeric` are function parameters.
- The clock is a parameter: `now` in seconds, `millis` for upload file names.

Lengths follow the source:

- express-validator's `isLength` counts as validator.js does: the UTF-16 length less one per surrogate pair and one per presentation selector (U+FE0E, U+FE0F), so every character but a selector counts once (`Strings.IsLengthCount`). The model's MySQL column width counts characters (`|s|`).
- JavaScript's `.length` counts UTF-16 code units (`Strings.Utf16Length`). The client and the update path's password rule use it.

| file | module | models |
|---|---|---|
| `wrappers.dfy` | `Wrappers` | `Option`, `Result` |
| `strings.dfy` | `Strings` | first-occurrence search and `replace`, JavaScript `\d`, `\s`, `.length`, ASCII lower-casing, decimal rendering |
| `user_model.dfy` | `UserModel` | `models/userModel.js`: the record, the constraints, the table class |
| `tokens.dfy` | `Tokens` | `jwt.sign` / `jwt.verify` as the backend uses them |
| `multer_config.dfy` | `MulterConfig` | `utils/multerConfig.js`: `path.extname`, the filter, the file name, the size limit |
| `http.dfy` | `Http` | request bodies, responses, the request object |
| `validation.dfy` | `Validation` | `utils/validation.js` |
| `auth_controller.dfy` | `AuthController` | `controllers/authController.js` |
| `user_controller.dfy` | `UserController` | `controllers/userController.js` |
| `auth_middleware.dfy` | `AuthMiddleware` | `middleware/authMiddleware.js` |
| `admin_middleware.dfy` | `AdminMiddleware` | `middleware/adminMiddleware.js` |
| `routes.dfy` | `Routes` | `routes/authRoutes.js`, `routes/userRoutes.js` |
| `register_form.dfy` | `ClientRegister` | `ums-frontend/src/components/auth/Register.js` |

Three places where the code behaves otherwise than its messages and payloads suggest; the model follows the code:

- **Downstream role checks.** The access token carries the role (`controllers/authController.js:8`), but the authentication gate re-reads the record (`middleware/authMiddleware.js:16-24`). So the admin gate and the controllers see the role stored at request time, not the role in the token (`AuthMiddleware.StoredRoleWins`).
- **Password length.** Registration answers "Password must be at least 6 characters long." (`utils/validation.js:34-35`) and the update "Password must be at least 6 characters and include a number." (`controllers/userController.js:94-96`). They count differently. Registration's `isLength` skips surrogate pairs and presentation selectors; `updateUser`'s `password.length` and the client's count UTF-16 units. A password with emoji, or with U+FE0F, can pass the client and the update rule yet fail registration (`ClientRegister.SupplementaryPasswordDisagrees`, `ClientRegister.SelectorPasswordDisagrees`).
- **The refresh secret.** The refresh token is signed with `REFRESH_SECRET` and the gate verifies with `JWT_SECRET`. Only distinct values keep refresh tokens out of the gate (`AuthMiddleware.RefreshTokenRefused`); with one value for both, a refresh token opens every user route for seven days (`AuthMiddleware.SharedSecretAdmitsRefreshToken`).

## Model

| member | source | states |
|---|---|---|
| UserModel.RoleName | ums-backend/models/userModel.js:56-57 | the ENUM spelling of each role parses back to that role |
| UserModel.ParseRole | ums-backend/models/userModel.js:56-57 | exactly `user` and `admin` are roles, and only `admin` denotes the admin role |
| UserModel.BcryptKey | ums-backend/controllers/authController.js:39 | bcrypt reads exactly the first 72 bytes of the password's UTF-8 encoding, or the whole encoding when it is no longer |
| UserModel.Hash | ums-backend/controllers/authController.js:39 | a hash is a digest that accepts exactly the passwords whose first 72 UTF-8 bytes are the hashed password's |
| UserModel.Compare | ums-backend/controllers/authController.js:83 | `bcrypt.compare` accepts a password only against a digest of its first 72 bytes; raw text in the column matches nothing |
| UserModel.ShortPasswordExact | ums-backend/controllers/authController.js:39 | a digest of a password shorter than 72 bytes accepts that password and no other |
| UserModel.LongPasswordsCollide | ums-backend/controllers/authController.js:39 | two different passwords of 73 characters that agree on the first 72 are accepted by each other's digest |
| UserModel.Built | ums-backend/models/userModel.js:56-60 | an inserted row without a role gets the default role `user` |
| UserModel.Changed | ums-backend/controllers/userController.js:119-122 | `User.update` writes the supplied columns, keeps the others, keeps key and creation time, and stamps `updatedAt` |
| UserModel.UpdateError | ums-backend/controllers/userController.js:119-140 | an update is rejected for a role outside the ENUM, an unstorable row, or a unique index conflict with another row |
| UserModel.WithoutPassword | ums-backend/controllers/userController.js:53-55 | the view drops exactly the password: the record is restored from the view and its password |
| UserModel.Sanitized | ums-backend/controllers/userController.js:7-12 | the sanitized view drops exactly the password and `updatedAt`, and otherwise agrees with the password-less view |
| UserModel.NewestExists | ums-backend/controllers/userController.js:39 | every non-empty set of keys has a record with the latest creation time |
| UserModel.CollectNewest | ums-backend/controllers/userController.js:36-40 | appending the newest pending record keeps the result selected, complete up to the pending keys, duplicate-free and newest first |
| UserModel.CollectedAll | ums-backend/controllers/userController.js:36-40 | with no key pending, the result holds exactly the records the clause selects |
| UserModel.UserTable.constructor | ums-backend/models/userModel.js:4-65 | the table starts empty with the first key 1, satisfying the schema invariant |
| UserModel.UserTable.FindOneByEmailOrPhone | ums-backend/controllers/authController.js:28-32 | the result is empty iff no record has that email or that phone; otherwise it is a stored record matching one of them |
| UserModel.UserTable.Create | ums-backend/models/userModel.js:5-64 | an insert succeeds iff the role is in the enumeration, the row fits the columns and passes `isEmail`, and no other row has its email or phone; it takes the next key and keeps the schema invariant; a failed insert changes nothing |
| UserModel.UserTable.Update | ums-backend/controllers/userController.js:119-122 | a missing key affects 0 rows; otherwise the row is rewritten with the changes, or it is refused as a unique violation or a rejected value, with nothing changed |
| UserModel.UserTable.Destroy | ums-backend/controllers/userController.js:161 | exactly the given key is removed; 1 or 0 rows are reported |
| UserModel.UserTable.FindAll | ums-backend/controllers/userController.js:36-40 | the result contains a record iff it is stored and selected by the clause, each once, ordered by creation time descending |
| Strings.ReplaceFirst | ums-backend/middleware/authMiddleware.js:6 | a string pattern is replaced at its first occurrence only; a string without it comes back unchanged |
| Strings.IsLengthCountVersusUtf16 | ums-backend/utils/validation.js:34-35 | `isLength`'s count never exceeds `.length`, and equals it exactly for text in the Basic Multilingual Plane without presentation selectors |
| Strings.Utf8Injective | ums-backend/controllers/authController.js:39 | distinct passwords have distinct UTF-8 encodings, the bytes bcrypt reads |
| Tokens.Verify | ums-backend/middleware/authMiddleware.js:13 | `jwt.verify` yields the claims iff the token was signed with the given secret and has not expired |
| Tokens.Sign | ums-backend/controllers/authController.js:11-14 | a signed token verifies, with its claims, under its own secret and before its expiry, and under nothing else |
| MulterConfig.LastIndexOf | ums-backend/utils/multerConfig.js:9 | the index found holds the character and no later index does; none means the character is absent |
| MulterConfig.Extname | ums-backend/utils/multerConfig.js:9 | the extension is non-empty iff the last path segment has a dot after its first character and is not `..`; a non-empty one starts with its only dot, has no separator, and is a proper suffix of that segment |
| MulterConfig.MentionsImageType | ums-backend/utils/multerConfig.js:18-20 | the unanchored, case-sensitive test for `jpeg`, `jpg` or `png` |
| MulterConfig.Accepted | ums-backend/utils/multerConfig.js:17-23 | the filter accepts a file iff its mimetype and its lower-cased extension both mention an image type |
| MulterConfig.NoExtensionRefused | ums-backend/utils/multerConfig.js:20-26 | a file whose name has no extension is refused whatever its mimetype |
| MulterConfig.DotfileRefused | ums-backend/utils/multerConfig.js:20-26 | `.png` has no extension and is refused, even with mimetype `image/png` |
| MulterConfig.BareNameRefused | ums-backend/utils/multerConfig.js:20-26 | `png` has no extension and is refused, even with mimetype `image/png` |
| MulterConfig.StoredName | ums-backend/utils/multerConfig.js:9 | the name is `user-`, a run of digits, and then the original extension |
| MulterConfig.Upload | ums-backend/utils/multerConfig.js:14-28 | a file is stored iff the filter accepts it and it is at most 2,000,000 bytes; a rejected type gives the filter's error and an oversized file `File too large` |
| MulterConfig.DecimalInjective | ums-backend/utils/multerConfig.js:9 | distinct timestamps render differently |
| MulterConfig.LeadingDigitsBeforeExtension | ums-backend/utils/multerConfig.js:9 | the digit run of a stored name ends where the extension begins |
| MulterConfig.StoredNameDigits | ums-backend/utils/multerConfig.js:9 | the timestamp is read back from a stored name as the digits after `user-` |
| MulterConfig.DistinctMillisDistinctNames | ums-backend/utils/multerConfig.js:9 | files stored at different milliseconds never share a name |
| MulterConfig.ExtensionCaseKept | ums-backend/utils/multerConfig.js:9-20 | the stored name keeps the extension's case (`Me.PNG` gives `user-7.PNG`) while the filter lower-cases it and accepts the file |
| Validation.Holds | ums-backend/utils/validation.js:21-49 | each validator of the chains: `isLength` bounds on `isLength`'s count, the name and digit patterns, `isEmail`, `isNumeric`, `notEmpty`, and an optional address |
| Validation.Failures | ums-backend/utils/validation.js:3-17 | every failing validator's `{field: message}` is collected, and nothing else is |
| Validation.ErrorOfInjective | ums-backend/utils/validation.js:21-49 | no two validators share a field and a message |
| Validation.NoFailuresIffAllHold | ums-backend/utils/validation.js:5-16 | no error is collected iff every validator accepts the body |
| Validation.FailureReported | ums-backend/utils/validation.js:21-49 | a validator's error is reported iff that validator fails |
| Validation.ImageError | ums-backend/utils/validation.js:52-63 | no file, or a file of exactly `image/jpeg` or `image/png` of at most 2 MiB, passes; any other type is refused first with the type message, and an allowed type over 2 MiB with the size message |
| Validation.RegisterValidation | ums-backend/utils/validation.js:3-66 | the request proceeds iff the image check passes and every validator holds; an image error answers 400 alone, before any field errors; otherwise the collected errors answer 400 `Validation failed.` |
| Validation.SizeCheckUnreachable | ums-backend/utils/validation.js:58-60 | a file that passed the upload limit never triggers the 2 MiB message |
| Validation.FilterWiderThanImageCheck | ums-backend/utils/validation.js:54-57 | `image/jpg` passes the upload filter but is refused by the image check |
| AuthController.ImagePath | ums-backend/controllers/authController.js:24 | the profile image is `/uploads/` plus the stored file name, or null without a file |
| AuthController.GenerateTokens | ums-backend/controllers/authController.js:7-17 | the access token verifies to `{id, role}` of the user for 60 s under `JWT_SECRET`, the refresh token for 7 days under `REFRESH_SECRET`; the refresh token is refused under `JWT_SECRET` iff the two secrets differ |
| AuthController.NewUserOf | ums-backend/controllers/authController.js:39-49 | the insert asks for role `user` whatever was requested, with the hashed password and the image path |
| AuthController.Registered | ums-backend/controllers/authController.js:42-49 | the registered row carries the submitted fields, the role `user`, the hash of the password and the creation time |
| AuthController.Register | ums-backend/controllers/authController.js:20-64 | 409 iff some record has the email or the phone, with nothing changed; 201 iff there is none and the row is storable, adding exactly that row under the next key and answering its sanitized form; otherwise 500 with nothing changed; the table keeps holding digests only |
| AuthController.LoginUserOf | ums-backend/controllers/authController.js:98-103 | the login user carries exactly id, name, email and role |
| AuthController.Login | ums-backend/controllers/authController.js:67-111 | 401 `User not found` iff no record has the login id as email or phone; 401 `Password mismatch` only for a match whose password fails; 200 only for a matching record whose password matches, with its login user and tokens, and always when every match accepts the password |
| AuthController.RegisterThenLogin | ums-backend/controllers/authController.js:39-90 | after a successful registration, logging in with the same password under the email and under the phone succeeds as the new user, unless another record's phone equals that email (or its email that phone) |
| AuthController.OnlyMatch | ums-backend/controllers/authController.js:72-76 | after an insert no earlier record matches, the new row is the only match of its login id |
| UserController.MayAccess | ums-backend/controllers/userController.js:86-88 | the self-or-admin rule of `getUser`, `updateUser` and `deleteUser`: an admin may act on any record, anyone else on their own |
| UserController.FilterColumn | ums-backend/controllers/userController.js:31 | exactly `state`, `city` and `country` are filter columns |
| UserController.Listed | ums-backend/controllers/userController.js:18-34 | which records the list route is meant to show, stated on the record's fields: the search text in the name or the email, and a recognised, non-empty filter holding its value |
| UserController.ContainsIff | ums-backend/controllers/userController.js:24-25 | the substring search succeeds iff the text occurs at some position |
| UserController.BuildWhere | ums-backend/controllers/userController.js:18-34 | the clause selects exactly the records the list route is meant to show: search hits on name or email, and a recognised, non-empty filter holding its value |
| UserController.ListUsers | ums-backend/controllers/userController.js:15-46 | 200 with a stored record's password-less view iff the record is listed, and only such views, each user once, newest first |
| UserController.GetUser | ums-backend/controllers/userController.js:49-70 | 404 iff the id is missing (checked first); 403 iff it exists but the requester is neither an admin nor its owner; otherwise 200 with the record without its password |
| UserController.PasswordChange | ums-backend/controllers/userController.js:94-99 | the corrected password branch: a non-empty password shorter than 6 UTF-16 units or without a digit is refused with the rule's message; an accepted one becomes a digest accepting exactly the passwords that agree with it on 72 bytes; an empty or missing one changes nothing |
| UserController.PasswordChangeAsWritten | ums-backend/controllers/userController.js:91-99 | the source's handling: an empty password is written as it is, any other is treated as by the corrected branch |
| UserController.Assemble | ums-backend/controllers/userController.js:91-116 | the body's fields, the handled password, the uploaded image's path over the body's, and for a non-admin no role |
| UserController.PrepareChanges | ums-backend/controllers/userController.js:91-116 | the corrected changes are refused exactly when the password rule refuses them |
| UserController.PrepareChangesAsWritten | ums-backend/controllers/userController.js:91-116 | the source's changes; they differ from the corrected ones only on an empty password |
| UserController.NonAdminKeepsRole | ums-backend/controllers/userController.js:114-116 | a non-admin's update never changes the role |
| UserController.AdminSetsRole | ums-backend/controllers/userController.js:114-116 | an admin's update sets the requested role |
| UserController.ChangesKeepHashes | ums-backend/controllers/userController.js:94-99 | with the correction, an update keeps a digest in the password column |
| UserController.OnlySuppliedFieldsChange | ums-backend/controllers/userController.js:78-122 | fields the request leaves out keep their values, key and creation time never change, and `updatedAt` becomes the write time |
| UserController.SuppliedFieldsWritten | ums-backend/controllers/userController.js:78-122 | supplied fields are written as sent; a non-empty password as its hash and an empty one as raw text; an uploaded file sets `/uploads/` plus its file name, over any image path in the body |
| UserController.EmptyPasswordLocksOut | ums-backend/controllers/userController.js:91-99 | as written, an empty password replaces the digest with text no password matches |
| UserController.EmptyPasswordKeepsPassword | ums-backend/controllers/userController.js:94-99 | with the correction, an empty password leaves the stored one unchanged |
| UserController.UpdateOutcome | ums-backend/controllers/userController.js:73-142 | the update's answer and rows: an answer other than 200 leaves the rows as they were, and a 200 rewrites only the target row |
| UserController.UpdateUser | ums-backend/controllers/userController.js:73-142 | 404 first, then 403 for a non-owner non-admin, then 400 for the password rule; a duplicate email or phone answers 409 and a rejected value 500, both with nothing changed; success rewrites only the target row and answers its sanitized form; an empty password is stored as raw text, and otherwise the table keeps holding digests only |
| UserController.DeleteUser | ums-backend/controllers/userController.js:145-179 | 404 iff missing, 403 iff another's record and not an admin, otherwise exactly the target is removed and 200 answered; nothing changes on an error |
| UserController.DeleteTwice | ums-backend/controllers/userController.js:149-153 | after a successful delete, deleting the same id again gives 404 |
| AdminMiddleware.AdminGate | ums-backend/middleware/adminMiddleware.js:1-8 | the request proceeds iff a user is attached and their role is `admin`; otherwise 403 `Admin privileges required` |
| Http.Request.constructor | ums-backend/middleware/authMiddleware.js:24 | an incoming request has no `user` attached; only the authentication gate sets it |
| AuthMiddleware.ExtractToken | ums-backend/middleware/authMiddleware.js:6-10 | no header, or a header that is empty once its first `Bearer ` is removed, yields no token; otherwise the token is that remainder |
| AuthMiddleware.BearerHeader | ums-backend/middleware/authMiddleware.js:6 | `Bearer <t>` yields `t` |
| AuthMiddleware.HeaderWithoutPrefix | ums-backend/middleware/authMiddleware.js:6 | a header without `Bearer ` is taken whole |
| AuthMiddleware.PrefixRemovedOnce | ums-backend/middleware/authMiddleware.js:6 | two examples: `Bearer Bearer x` gives `Bearer x`, and `xBearer y` gives `xy` |
| AuthMiddleware.LaterPrefixKept | ums-backend/middleware/authMiddleware.js:6 | for every header, the first `Bearer ` is removed wherever it stands, and any later occurrence stays in the token |
| AuthMiddleware.Decide | ums-backend/middleware/authMiddleware.js:5-30 | no token answers `Access denied`; a token that does not decode or verify under `JWT_SECRET` answers `Token is not valid or expired.`; a verified token whose id has no record answers `Invalid token.`; otherwise the gate passes with that record without its password |
| AuthMiddleware.Authenticate | ums-backend/middleware/authMiddleware.js:24-25 | on a pass, `req.user` is set to the gate's user; on a refusal it is left as it was |
| AuthMiddleware.StoredRoleWins | ums-backend/middleware/authMiddleware.js:16-24 | the role attached to the request is the stored one |
| AuthMiddleware.RefreshTokenRefused | ums-backend/middleware/authMiddleware.js:13-29 | when `JWT_SECRET` and `REFRESH_SECRET` differ, a refresh token never passes the gate |
| AuthMiddleware.SharedSecretAdmitsRefreshToken | ums-backend/middleware/authMiddleware.js:13-25 | when they are equal, a refresh token for a stored record passes the gate for seven days and is refused as expired after |
| AuthMiddleware.AccessTokenAccepted | ums-backend/middleware/authMiddleware.js:13-25 | an access token for a stored record passes until it expires and is refused as expired after |
| Routes.Uploaded | ums-backend/routes/authRoutes.js:9 | no file part passes as no file; otherwise it is the upload's result, with the filter's or the limit's error |
| Routes.UploadFailure | ums-backend/server.js:43-48 | an upload error reaches the error handler and answers 500 with the error's message |
| Routes.RegisterRoute | ums-backend/routes/authRoutes.js:9 | an upload error answers 500 with its message, a failed rule set answers its own response, and the table changes only on 201, after the upload and every rule passed |
| Routes.UsersRoute | ums-backend/routes/userRoutes.js:14-27 | a refused token answers the gate's 401 with nothing changed; listing needs the admin role, as stored, answers 403 otherwise, and for an admin lists exactly the stored records that match the query, without passwords; the id routes are not admin-gated; reading and deleting answer 404 exactly for a missing id, 403 exactly for another's existing record asked by a non-admin, and otherwise 200 with the record's view or with exactly that record removed; the update route answers an upload error with 500 before any lookup, 403 for another's existing record, and otherwise answers and changes the rows as `updateUser` does |
| ClientRegister.EmailFormat | ums-frontend/src/components/auth/Register.js:32 | the email pattern `\S+@\S+\.\S+`, matched anywhere in the text |
| ClientRegister.EmailFormatExamples | ums-frontend/src/components/auth/Register.js:32 | the email pattern is unanchored (`not an email: a@b.c, really` passes) and needs text around both `@` and `.` |
| ClientRegister.RulePasses | ums-frontend/src/components/auth/Register.js:24-56 | each client rule, with lengths in UTF-16 units |
| ClientRegister.ValidateForm | ums-frontend/src/components/auth/Register.js:24-59 | no message iff every rule passes; otherwise the message of the first failing rule in the order name, email, phone, password, location, pincode, image |
| ClientRegister.EmptyFormFailsOnName | ums-frontend/src/components/auth/Register.js:6-31 | the untouched form reports the name rule |
| ClientRegister.HandleSubmit | ums-frontend/src/components/auth/Register.js:61-74 | nothing is sent iff validation fails; otherwise the nine fields in declaration order, then the image if one was picked |
| ClientRegister.SubmittedBody | ums-frontend/src/components/auth/Register.js:67-69 | the submitted body always carries the address, possibly empty, and never a role |
| ClientRegister.RuleTextCountsAlike | ums-frontend/src/components/auth/Register.js:36-48 | names, phones and pincodes the client accepts are counted alike by `.length` and `isLength` |
| ClientRegister.ClientValidServerAgrees | ums-backend/utils/validation.js:21-49 | a form the client accepts passes every server validator except the email, the address length and, for a password with characters outside the Basic Multilingual Plane or presentation selectors, the password length |
| ClientRegister.SupplementaryPasswordDisagrees | ums-backend/utils/validation.js:34-36 | three emoji and a digit satisfy the client's password rule but not the server's length |
| ClientRegister.SelectorPasswordDisagrees | ums-backend/utils/validation.js:34-36 | `abcd1` followed by U+FE0F satisfies the client's password rule (6 units) but not the server's length (5) |

## Left out

- `fs.unlink` of old and deleted profile images: it is fire-and-forget file I/O in `controllers/userController.js`.
- The "affected rows 0" answer of `updateUser` is not modelled: `User not found or no changes made.` (404). MySQL may count only the rows whose values changed, so an update that writes every column's current value within the same second as the previous `updatedAt` reports 0. The model treats every successful update as a change.
- The "affected rows 0" answer of `deleteUser` is not modelled. It follows a lookup that found the row, so it is unreachable without a concurrent request.
- Concurrency between requests is not modelled. That includes the check-then-insert race in `register`, which ends as 500.
- The catch-all 500 answers for database failures are not modelled: `Failed to fetch users.`, `Failed to fetch user.`, `Failed to delete user.` and `Login failed.`. The database never fails in the model except through its constraints.
- AuthController.Login: a body without `loginId` or without `password` is not modelled; the login id and the password are strings. In the source Sequelize refuses the undefined `where` value, or `bcrypt.compare` rejects the undefined password, and either ends as 500 `Login failed.`.
- UserModel.UserTable.Create: a failed insert does not use up an AUTO_INCREMENT value. MySQL may consume one, but keys stay unique either way.
- UserController.BuildWhere: `LIKE` is plain substring matching. `%` and `_` in the search are taken literally.
- The database's case-insensitive collation is not modelled anywhere: the model compares text exactly. In MySQL the collation also governs the unique indexes on email and phone, the email-or-phone lookups of `register` and `login`, the `LIKE` search and the filter's equality, so `A@x.io` and `a@x.io` count as the same email there and as two here.
- The query string is modelled as flat. Repeated query parameters (arrays) and JSON `null` bodies are not modelled.
- UserController.UpdateUser: only the ten columns the form can send are modelled as body keys. Unknown keys, `id`, `createdAt` and `updatedAt` in the body are left out.
- Ids are `nat`. `parseInt` of the `:id` path segment is not modelled.
- bcrypt's salt and cost are abstracted away (`Hash(p)` is a digest of the first 72 bytes of `p`). So is the timing of the comparison.
- UserModel.Hash: a password containing U+0000 is not modelled specially, in either library. The native `bcrypt` module used by `register` and `login` stops reading at that character. `bcryptjs`, used by `updateUser`, appends a NUL and repeats the key bytes through the Blowfish key schedule, so it can give "a" and "a" + U+0000 + "a" the same key. In both, such passwords may collide where the model keeps them apart (`ShortPasswordExact`).
- JWT signature forgery, the compact encoding and `SigningError` are left out. `parse` is a parameter.
- Token lifetimes are taken as whole seconds.
- `isEmail` and `isNumeric` are validator.js functions and are parameters here. `ClientRegister.ClientValidServerAgrees` assumes `isNumeric` accepts every digit string.
- `toLowerCase` on the extension is ASCII only. That does not affect matching `jpeg`, `jpg` or `png` on ASCII input.
- The application's error handler in `server.js` is reduced to its effect on upload errors: 500 with the error's message (`Routes.UploadFailure`). The rest of `server.js`, `securityMiddleware.js` and the other client files are not part of this model.
- Routes.Uploaded: only the `profile_image` part is modelled. A file sent under any other field name makes multer raise `Unexpected field`, which the error handler answers with 500; the model has no such part.
- The login route has no gate. It is not modelled separately from `AuthController.Login`.

## Findings

| source | as written | input that shows it | evidently intended | confidence | as-written member | corrected member |
|---|---|---|---|---|---|---|
| ums-backend/controllers/userController.js:91-99 | an empty `password` skips the check and the hashing, but stays among the fields handed to `User.update`, so the empty text replaces the digest and no password logs in any more | `PUT /api/users/5` by user 5 with the field `password` set to the empty string | an empty password means "keep the current one" and is dropped with the rest of the skipped branch | medium (the bundled edit page never sends the field), not executed | UserController.EmptyPasswordLocksOut | UserController.EmptyPasswordKeepsPassword |

`UserController.UpdateUser`, and so `Routes.UsersRoute`, follow the code as written: after `password: ""` the stored password is the raw empty text (the method's last `ensures`). The corrected branch is `UserController.PasswordChange`, with `UserController.PrepareChanges` and `UserController.ChangesKeepHashes` built on it.
