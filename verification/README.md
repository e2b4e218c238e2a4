# Session manager, password validators and sidenav of an Angular admin dashboard

A Dafny model of the behaviour of three parts of the dashboard: the
session manager (`auth.service.ts`), the register form's validators and the
side navigation (`sidenav.component.ts`). The text of those implementation
files is not available, so the model is built from the behaviour their unit
tests pin down, and every row below cites the test lines it models.

- **AuthService** (`auth_service.dfy`, module `Auth`). This is the session manager.
  - `register` posts the user request it is given as JSON, with `codigo` renamed to `code`.
  - `loginWithUserCredentials` and `loginWithRefreshToken` post OAuth2 password and
    refresh grants as `application/x-www-form-urlencoded` bodies.
  - A successful answer is stored verbatim under the storage key `session`.
  - `logout` wipes the whole storage scope.
  - `isLogged`, `accessToken` and `refreshToken` read the stored session.
  - The class `AuthService` holds the storage as a `map` field.
  - The HTTP exchange is an argument: each method returns the request it sends
    and is handed the server's answer.
- **encodeURIComponent** (`utf8.dfy`, `percent_encoding.dfy`). Strings are taken
  to their UTF-8 bytes (RFC 3629). Bytes outside the unreserved set are then
  percent-encoded (section 2.1 of RFC 3986), with upper-case hex.
- **Form bodies** (`form_urlencoded.dfy`). Bodies are `name=value` pieces joined by `&`.
  The decoder is the reading a form parser applies (the WHATWG URL Standard).
  It is the partner of every encoder: each grant body is proved to read back
  as exactly its intended fields, provided the fields sent raw consist of
  unreserved characters.
- **Register form validators** (`password_validators.dfy`). These are pure
  predicates over strings, each naming its error. `required` applies to the
  password and to the confirmation. `notSame` applies to the form.
- **SidenavComponent** (`sidenav.dfy`). This is a class with the fields
  `isOpen` and `isFixed`. `toggle` flips `isOpen`. A width rule with the
  threshold 1280 sets both fields; 1280 itself counts as narrow.

## Decisions where the tests leave room

- **Storage values.** The value under `session` is JSON text in the browser. Here it is the
  parsed object: `Entry.Record(fields)`, where `fields` maps field names to values.
  Other keys hold `Entry.Text`. A `session` value that is not an object reads as no session.
  `isLogged` checks only that the key is present.
- **Raw and encoded fields.** `client_id`, `client_secret` and `refresh_token` go into the grant bodies raw.
  The tests build the expected `client_id=`/`client_secret=` text without encoding, and
  write `refresh_token=refresh123` literally.
  `username`, `password` and `scope` are percent-encoded.
  The only raw value the tests show is `refresh123`. The client id and secret come from
  environment configuration that is not part of this model, and the refresh token comes
  from the server. For values made of unreserved characters `PercentEncoding.EncodeUnreserved`
  shows that sending them raw and sending them encoded give the same text.
  A raw value containing `&`, `=`, `+` or `%` changes what a form reader sees in the body
  (`Auth.RawValueWithPlusMisread`: `a+b` reads as `a b`).
  `Auth.PasswordGrantDecodes` requires the client id and secret to be unreserved;
  `Auth.RefreshGrantDecodes` requires that of the refresh token too.
- **Field order.** The order of the pieces in a grant body is not fixed by the tests,
  which only check containment. The model uses grant_type, client_id, client_secret,
  then username/password or refresh_token, then scope.
- **Rule validators on the empty value.** The tests show only that `''` leaves the password
  control invalid. The model takes every rule validator to run on `''` too, so an empty password
  carries the five rule errors besides `required`. A validator that skips empty values, as
  Angular's built-in `minLength` does, would report only `required` there.
- **Length in UTF-16 units.** `at-least-eight-characters` counts the UTF-16 code units JavaScript's
  `length` counts: a character above U+FFFF counts twice (`PasswordValidators.Utf16Length`).
- **Character classes.** The digit, lowercase and uppercase rules use the ASCII classes `[0-9]`, `[a-z]`, `[A-Z]`.
  The set of special characters is a parameter, and `!` is the only one the tests show.
- **The initial view.** The constructor models the field initializers (`isOpen = true`,
  `isFixed = false`). The test of the initial state (sidenav.component.spec.ts:30-33) looks
  after the first change detection, which also runs `ngAfterViewInit`; it fits the model
  only for a test window wider than 1280, where `ViewForWidth` gives the same view
  (`Sidenav.WitnessedWidths`).
- **The wide-window case.** For widths above 1280, `changeToResponsiveViewIfNeed` sets both
  fields (`isOpen = true`, `isFixed = false`). The test for that case starts from the
  initial state, so it cannot tell this apart from leaving the fields alone. The model
  takes the two-branch reading.

## Model

| member | source | states |
|---|---|---|
| `Auth.RegisterBodyRenamesCodigo` | src/app/core/services/auth.service.spec.ts:31-66 | the registration body has exactly the fields code, email, password, no codigo, and reads back as the caller's data with code = codigo |
| `Auth.AuthService.Register` | src/app/core/services/auth.service.spec.ts:39-50 | register posts the renamed JSON body to the registration endpoint and hands the server's response to the caller unchanged; storage cannot change |
| `Auth.PasswordGrantWireFormat` | src/app/core/services/auth.service.spec.ts:79-108 | the password grant is a POST to the token endpoint with Content-Type application/x-www-form-urlencoded whose body contains grant_type=password, client_id, client_secret, and username, password and scope percent-encoded |
| `Auth.PasswordGrantDecodes` | src/app/core/services/auth.service.spec.ts:95-110 | a form reader finds in the password-grant body exactly the six fields, with the caller's username and password unchanged (client id and secret made of unreserved characters) |
| `Auth.RefreshGrantWireFormat` | src/app/core/services/auth.service.spec.ts:141-163 | the refresh grant is a POST to the same endpoint with the form content type whose body contains grant_type=refresh_token, client_id, client_secret, refresh_token=<token> and the encoded scope |
| `Auth.RefreshGrantDecodes` | src/app/core/services/auth.service.spec.ts:154-165 | a form reader finds in the refresh-grant body exactly the five fields, the refresh token among them (client id, secret and refresh token made of unreserved characters) |
| `Auth.RawValueWithPlusMisread` | src/app/core/services/auth.service.spec.ts:154-165 | a value sent raw, as the refresh token is, that holds + is read back by a form reader with a space in its place |
| `Auth.AuthService.LoginWithUserCredentials` | src/app/core/services/auth.service.spec.ts:69-125 | sends the password grant; on success the session key holds exactly the response (other keys kept), the user is logged in and the getters return the response's token fields; the response is passed on; an error leaves storage unchanged |
| `Auth.AuthService.LoginWithRefreshToken` | src/app/core/services/auth.service.spec.ts:128-178 | with a refresh token stored, sends the refresh grant carrying that stored token; the response replaces the session outright, so every session field now reads as the response's and none of the old session survives |
| `Auth.AuthService.Logout` | src/app/core/services/auth.service.spec.ts:192-211 | logout empties the whole storage (size 0, unrelated keys too); afterwards isLogged is false and both getters are null |
| `Auth.AccessorsReadStoredSession` | src/app/core/services/auth.service.spec.ts:181-251 | with no session key both getters are null; a token is only ever read while a session is present; with a stored session each getter returns that session's field |
| `Auth.AuthService.constructor` | src/app/core/services/auth.service.spec.ts:11-19 | the service starts over whatever the storage already holds |
| `Auth.AuthService.IsLogged` | src/app/core/services/auth.service.spec.ts:181-197 | isLogged holds whenever a session is stored (it checks only that the session key is present) |
| `Auth.AuthService.AccessToken` | src/app/core/services/auth.service.spec.ts:213-231 | the accessToken getter is the stored session's access_token exactly when a session holding that field is stored, and null otherwise; it is never non-null while logged out |
| `Auth.AuthService.RefreshToken` | src/app/core/services/auth.service.spec.ts:233-251 | the refreshToken getter is the stored session's refresh_token exactly when a session holding that field is stored, and null otherwise; it is never non-null while logged out |
| `Auth.Lookup` | src/app/core/services/auth.service.spec.ts:213-251 | a field read gives the field's value when present and null exactly when it is missing |
| `PercentEncoding.Encode` | src/app/core/services/auth.service.spec.ts:106-108 | encodeURIComponent's output is never shorter than its input and holds only unreserved characters, % and hex digits |
| `PercentEncoding.DecodeEncode` | src/app/core/services/auth.service.spec.ts:106-108 | decoding what encodeURIComponent produced gives back the original string, for every string |
| `PercentEncoding.EncodeAlphabet` | src/app/core/services/auth.service.spec.ts:106-108 | a corollary of Encode's alphabet: an encoded value never holds the form separators & and =, nor + |
| `PercentEncoding.PlusReadsAsSpace` | src/app/core/services/auth.service.spec.ts:154-165 | a form reader reads + as a space: a+b decodes to a b |
| `PercentEncoding.EncodeUnreserved` | src/app/core/services/auth.service.spec.ts:104-105 | a value made of unreserved characters is its own encoding |
| `PercentEncoding.EncodeAtSign` | src/app/core/services/auth.service.spec.ts:106 | @ is written %40, as in an e-mail username |
| `PercentEncoding.DecodeBytesEncodeBytes` | src/app/core/services/auth.service.spec.ts:106-108 | percent-decoding inverts percent-encoding byte for byte |
| `Utf8.DecodeEncode` | src/app/core/services/auth.service.spec.ts:106-108 | UTF-8 decoding the bytes encodeURIComponent starts from gives back the string |
| `Utf8.DecodeFirstEncodeChar` | src/app/core/services/auth.service.spec.ts:106-108 | the decoder reads back exactly the encoded scalar value and its length, whatever bytes follow |
| `Utf8.EncodeChar` | src/app/core/services/auth.service.spec.ts:106-108 | one to four bytes per character, one exactly for ASCII, continuation bytes after the first |
| `FormUrlEncoded.DecodeEncode` | src/app/core/services/auth.service.spec.ts:95-110 | a form reader recovers exactly the encoded list of name/value pairs, in order |
| `FormUrlEncoded.SplitJoin` | src/app/core/services/auth.service.spec.ts:102-108 | cutting a &-joined body of &-free pieces at & gives the pieces back |
| `FormUrlEncoded.JoinContains` | src/app/core/services/auth.service.spec.ts:102-108 | each piece of a joined body occurs in it, at the offset returned |
| `FormUrlEncoded.IndexOf` | src/app/core/services/auth.service.spec.ts:102-108 | finds the first occurrence of a separator, or reports that there is none |
| `PasswordValidators.HasCharIn` | src/app/auth/register/register.component.spec.ts:74-104 | true exactly when some character of the value lies in the class |
| `PasswordValidators.PasswordErrors` | src/app/auth/register/register.component.spec.ts:68-112 | required iff empty; at-least-one-digit/-lowercase/-uppercase/-special-character iff no character of that class; at-least-eight-characters iff shorter than 8 UTF-16 units, so never for 8 or more characters |
| `PasswordValidators.Utf16LengthBounds` | src/app/auth/register/register.component.spec.ts:106-112 | the UTF-16 length the length rule measures lies between the character count and twice it, and equals the character count when no character is above U+FFFF |
| `PasswordValidators.SurrogatePairsCountTwice` | src/app/auth/register/register.component.spec.ts:106-112 | a 7-character password with three characters above U+FFFF is 10 units long and passes the length rule |
| `PasswordValidators.FormErrors` | src/app/auth/register/register.component.spec.ts:120-130 | the form-level validator reports only notSame, and reports it exactly when password and confirmation differ |
| `PasswordValidators.RequiredErrors` | src/app/auth/register/register.component.spec.ts:114-118 | the required validator reports an error exactly for the empty value |
| `PasswordValidators.PasswordValidIffStrong` | src/app/auth/register/register.component.spec.ts:74-112 | the password control has no error exactly when the password is 8+ characters with a digit, a lowercase, an uppercase and a special character |
| `PasswordValidators.RequiredImpliesTooShort` | src/app/auth/register/register.component.spec.ts:68-72 | a consequence of the decision that the rule validators also run on the empty value: an empty password carries at-least-eight-characters besides required, so the control is invalid either way |
| `PasswordValidators.FormErrorsSymmetric` | src/app/auth/register/register.component.spec.ts:120-130 | the form-level check gives the same errors with password and confirmation swapped |
| `PasswordValidators.ValidFormConfirmationIsStrong` | src/app/auth/register/register.component.spec.ts:114-130 | in a valid form the confirmation meets the password policy too |
| `PasswordValidators.WitnessedRequired` | src/app/auth/register/register.component.spec.ts:68-72 | the empty password and the empty confirmation are required errors |
| `PasswordValidators.WitnessedDigit` | src/app/auth/register/register.component.spec.ts:74-80 | NoDigit!A lacks a digit; HasDigit1!A does not |
| `PasswordValidators.WitnessedLowercase` | src/app/auth/register/register.component.spec.ts:82-88 | NOLOWER1! lacks a lowercase letter; HasLower1!A does not |
| `PasswordValidators.WitnessedUppercase` | src/app/auth/register/register.component.spec.ts:90-96 | noupper1! lacks an uppercase letter; HasUpper1!a does not |
| `PasswordValidators.WitnessedSpecial` | src/app/auth/register/register.component.spec.ts:98-104 | NoSpecial1A lacks a special character; HasSpecial1!A does not |
| `PasswordValidators.WitnessedLength` | src/app/auth/register/register.component.spec.ts:106-112 | the 7-character Short1! is too short; LongEnough1!A is not |
| `PasswordValidators.WitnessedNotSame` | src/app/auth/register/register.component.spec.ts:120-130 | equal entries pass notSame and different ones fail it |
| `PasswordValidators.WitnessedValidForm` | src/app/auth/register/register.component.spec.ts:135-139 | the form filled in for registering (Password1! twice) is valid |
| `Sidenav.ToggleTwiceRestores` | src/app/dashboard/layouts/sidenav/sidenav.component.spec.ts:35-42 | toggling twice restores the view |
| `Sidenav.WitnessedWidths` | src/app/dashboard/layouts/sidenav/sidenav.component.spec.ts:44-60 | widths 1000 and 1280 give closed and fixed, 1500 gives open and not fixed, which is also the initial view |
| `Sidenav.Toggled` | src/app/dashboard/layouts/sidenav/sidenav.component.spec.ts:35-42 | toggling negates isOpen and keeps isFixed |
| `Sidenav.ViewForWidth` | src/app/dashboard/layouts/sidenav/sidenav.component.spec.ts:44-60 | the width rule fixes the sidenav exactly for widths up to and including 1280, and leaves it open exactly when not fixed |
| `Sidenav.SidenavComponent.constructor` | src/app/dashboard/layouts/sidenav/sidenav.component.spec.ts:30-33 | the field initializers: a new component is open and not fixed (observed after the first render, so for a window wider than 1280) |
| `Sidenav.SidenavComponent.Toggle` | src/app/dashboard/layouts/sidenav/sidenav.component.spec.ts:35-42 | isOpen becomes its negation, isFixed is kept |
| `Sidenav.SidenavComponent.ChangeToResponsiveViewIfNeed` | src/app/dashboard/layouts/sidenav/sidenav.component.spec.ts:44-60 | both fields become the view the width rule gives |
| `Sidenav.SidenavComponent.OnResize` | src/app/dashboard/layouts/sidenav/sidenav.component.spec.ts:62-67 | a resize applies the width rule to event.target.innerWidth |
| `Sidenav.SidenavComponent.NgAfterViewInit` | src/app/dashboard/layouts/sidenav/sidenav.component.spec.ts:69-77 | the first render applies the width rule to the window's width |
| `Sidenav.ToggleTwice` | src/app/dashboard/layouts/sidenav/sidenav.component.spec.ts:35-42 | a caller that toggles twice gets both fields back as they were |

## Left out

- HTTP transport, `HttpClient` and RxJS observables: a request is a returned value and a response is an argument. There is no asynchrony, cancellation or concurrency, so the "last write wins" race between two refreshes is not modelled.
- Auth.AuthService.LoginWithRefreshToken: takes only a successful answer and requires a stored refresh token. Refresh failure and refresh without a session are not pinned down by the tests, so nothing is claimed about them.
- JSON serialisation of the stored session: the stored value is the parsed object. Its fields are modelled as strings, so non-string JSON values such as a numeric `expires_in` stand for their text.
- Concrete OAuth client id, secret, scope and endpoint URLs: parameters (`OAuthConfig`, `Endpoint`).
- PercentEncoding.Encode: strings are sequences of Unicode scalar values, so a string holding a lone UTF-16 surrogate cannot be written; encodeURIComponent throws URIError on one, and that error path of loginWithUserCredentials is not modelled.
- PasswordValidators.PasswordErrors: the character-class rules look at Unicode scalar values, not UTF-16 code units; a lone surrogate cannot occur, and no surrogate half is in any of the classes, so the rules agree for every string Dafny can represent. The length rule is measured in UTF-16 units.
- PercentEncoding.Decode: a byte sequence that is not UTF-8 reads as no value (`None`). The WHATWG parser would substitute U+FFFD instead; only valid encodings are decoded in the proofs.
- Email format validation on the register form: it is Angular's built-in validator, whose rules are not part of this model. Only `required` on the email is modelled.
- Auth.RefreshGrantDecodes: the refresh token is sent raw, so a token outside the unreserved set is not proved to read back; a `+` in it reads as a space (`Auth.RawValueWithPlusMisread`).
- The register component calls `register` with `{email, password, passwordConfirmation}` and no `codigo` (register.component.spec.ts:143-147). The model says nothing about the request sent then: whether `code` is missing and whether `passwordConfirmation` is kept or dropped.
- The register component's submit path, snackbar messages, router navigation and `setMenusExperienceScripts` (DOM scripting) are not modelled.
- The customer REST service, customer list, login, toolbar, dashboard, footer and home components are UI glue and are not part of this model.
