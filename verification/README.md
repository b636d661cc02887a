# Authorization gate of express-jobly, modelled in Dafny

The backend's `middleware/auth.js` holds four Express middlewares:

- `authenticateJWT` reads the `Authorization` header and strips one leading `Bearer ` or `bearer `. It trims the rest and hands it to the token verifier. If verification succeeds, it stores the decoded claims in the per-request slot `res.locals.user`. It never rejects a request.
- `ensureAdmin`, `ensureAdminOrSelf` and `ensureLoggedIn` read that slot. Each either continues to the next handler or throws `UnauthorizedError`.

The model has three modules:

- `Wrappers` (`wrappers.dfy`): the `Option` type. `None` stands for `undefined`.
- `JsString` (`jsstring.dfy`): the two JavaScript string operations the extractor uses.
  - `Trim` is `String.prototype.trim`, with the ECMAScript whitespace and line-terminator set. It is built from `TrimStart` and `TrimEnd`.
  - `TrimmedAt` is an independent description of trimming. `TrimUnique` proves that this description determines `Trim`'s result.
  - `StripBearer` is `replace(/^[Bb]earer /, "")`.
- `Auth` (`auth.dfy`): the gate itself.
  - Data: the claims, the request, and the outcome (`Next` for calling `next()`, `Unauthorized` for the thrown error).
  - Token extraction: `ExtractToken`.
  - The guards, as pure functions of the stored claims.
  - The per-request context `res.locals` is a class with a `user` field. `authenticateJWT` is a method on it that changes only that field. The method is specified by the function `AuthenticatedUser`.

The token verifier (`jwt.verify` with the configured secret) is a parameter of type `string -> Option<Claims>`. `None` stands for the exception it throws on a malformed, expired or badly signed token.

Two behaviours of the code are worth stating outright:

- HTTP treats the scheme name as case-insensitive (section 2.1 of RFC 7235). The code, however, recognises only `Bearer ` and `bearer `, each with exactly one space. `UpperCaseSchemeKept` shows that `BEARER x` reaches the verifier untouched.
- A failed verification leaves `res.locals.user` as it was. On a fresh context that means no claims (`AuthenticatedFromEmpty`).

## Model

| member | source | states |
|---|---|---|
| `JsString.TrimStart` | middleware/auth.js:21 | the result is a suffix of the input; everything dropped is whitespace; the result does not start with whitespace |
| `JsString.TrimEnd` | middleware/auth.js:21 | the result is a prefix of the input; everything dropped is whitespace; the result does not end with whitespace |
| `JsString.Trim` | middleware/auth.js:21 | `trim()` returns a slice `s[i..j]` where everything before `i` and from `j` on is whitespace and the slice neither starts nor ends with whitespace |
| `JsString.TrimUnique` | middleware/auth.js:21 | any `i`, `j` meeting that description give exactly `Trim(s)`, so the description determines the result |
| `JsString.TrimIdempotent` | middleware/auth.js:21 | trimming an already trimmed string changes nothing |
| `JsString.TrimPadded` | middleware/auth.js:21 | a string without surrounding whitespace, padded with any whitespace on both sides, trims back to itself |
| `JsString.StripBearer` | middleware/auth.js:21 | with a leading `Bearer ` or `bearer `, exactly those seven characters are removed; any other string is returned unchanged |
| `Auth.ExtractToken` | middleware/auth.js:21 | the token given to the verifier has no surrounding whitespace and is no longer than the header |
| `Auth.ExtractTokenBearer` | middleware/auth.js:21 | `Bearer ` or `bearer `, then any whitespace, a token, and any whitespace, yields exactly the token |
| `Auth.OtherSchemeOnlyTrimmed` | middleware/auth.js:21 | a header without the recognised prefix is only trimmed |
| `Auth.BearerStrippedOnce` | middleware/auth.js:21 | `Bearer Bearer t` yields `Bearer t`: the scheme is removed once, not repeatedly |
| `Auth.ExtractTokenPadded` | middleware/auth.js:21 | `Bearer   abc.def.ghi` yields `abc.def.ghi` |
| `Auth.ExtractTokenLowerCase` | middleware/auth.js:21 | `bearer abc.def.ghi` yields `abc.def.ghi` |
| `Auth.UnrecognisedHeaderKept` | middleware/auth.js:21 | a header without the prefix and without surrounding whitespace reaches the verifier unchanged |
| `Auth.UpperCaseSchemeKept` | middleware/auth.js:21 | `BEARER t` is not stripped: the verifier receives `BEARER t` |
| `Auth.AuthenticatedUser` | middleware/auth.js:17-28 | `res.locals.user` changes only when a non-empty header is given and its extracted token verifies; it then holds exactly the verifier's claims |
| `Auth.AuthenticatedFromEmpty` | middleware/auth.js:19-23 | from an empty context, claims are attached if and only if a non-empty header is given and its token verifies |
| `Auth.RequestContext.AuthenticateJWT` | middleware/auth.js:17-28 | always continues to `next` and never rejects; the new `user` is `AuthenticatedUser` of the old one, and nothing else changes |
| `Auth.EnsureAdmin` | middleware/auth.js:35-43 | passes if and only if claims are attached and `isAdmin` is exactly `true`; missing claims, `false` or a missing `isAdmin` give Unauthorized |
| `Auth.EnsureAdminOrSelf` | middleware/auth.js:50-59 | missing claims give Unauthorized; attached claims pass if and only if `isAdmin` is `true` or `username` equals the route's `username` parameter |
| `Auth.AbsentUsernamesMatch` | middleware/auth.js:52-58 | because `!==` compares two `undefined` values as equal, claims without `username` pass on a route without a `username` parameter |
| `Auth.EnsureLoggedIn` | middleware/auth.js:66-69 | passes if and only if claims are attached |
| `Auth.GuardStrength` | middleware/auth.js:35-69 | for every context and route parameter, passing `ensureAdmin` implies passing `ensureAdminOrSelf`, and that implies passing `ensureLoggedIn` |

## Left out

- Token verification: `jwt.verify` and the `SECRET_KEY` from the configuration module (middleware/auth.js:5-6, 22) are a foreign library and configuration. They are a verifier parameter; its `None` stands for every exception the library throws.
- Express plumbing: the `next` callback and `throw new UnauthorizedError()` become the returned `Outcome`. Turning the error into an HTTP 401 response happens outside this file. The `../expressError` and `../config` modules are not part of this model.
- `next()` called exactly once: a method returns exactly one `Outcome`, so "once on every path" holds by construction. No call counter is modelled. This assumes `next()` itself does not throw: the `try` at middleware/auth.js:18-24 also wraps `return next()`, so a synchronous throw from it would reach the `catch` at lines 25-26 and call `next()` a second time. Express's routing layer catches errors from later handlers, so this does not arise there.
- Guards leaving the request and `res.locals` alone: the guards are pure functions of the stored claims and the route parameter. So they cannot change any state, and no frame condition is stated for them.
- JavaScript value edge cases: a stored `null` user makes `res.locals?.user.isAdmin` throw a `TypeError` (middleware/auth.js:38, 53). Non-object token payloads and non-boolean `isAdmin` or non-string `username` values can also occur. Claims here are absent or a record with an optional boolean `isAdmin` and an optional string `username`.
- `req.headers` itself being absent (middleware/auth.js:19): Express always supplies it. Only the `authorization` entry is optional. A header repeated in the request is not modelled.
- JavaScript strings are sequences of UTF-16 code units; the model's strings are sequences of Unicode scalar values. Lone surrogates cannot be represented, and lengths (such as `|token| <= |header|` in `ExtractToken`) count code points. Node decodes header values as Latin-1 and every character `trim` removes lies in the Basic Multilingual Plane, so the extracted token is the same either way.
- Concurrency: each request has its own context, so there is no shared state.
