# Signup handler of the web chat server, in Dafny

This project models the one piece of logic in the chat server's `server.py`:
the `POST /signup` handler. It checks the submitted form in a fixed order:

1. the name is not blank after `strip()`;
2. the email is not blank after `strip()`;
3. the password has at least 8 characters;
4. the password equals its confirmation;
5. no stored user already has this exact email.

A refused request gets HTTP 400 with the detail text of the first check that fails.
An accepted request appends `{name, email, password}` to the in-memory `users`
list and answers `{"message": "User created successfully", "user_id": len(users)}`.

Files:

- `pystr.dfy` (module `PyStr`) models Python's `str.isspace` and `str.strip()`.
  Characters are Unicode scalar values, as in a Python `str`. The lemmas show that
  `strip()` returns the empty string exactly when every character is whitespace.
- `server.dfy` (module `Server`) holds the request and record datatypes and the
  field checks (`Validate`, a pure function). It also holds the full decision
  (`Check`) and the effect of one signup on the store (`SignupResult`). The
  module-level `users` list is the class `UserStore`, whose `seq<User>` field is
  reassigned by `Signup`. Its invariant is that stored emails are pairwise
  distinct. The duplicate scan is the loop in `EmailRegistered`.
- `Run` replays a series of signups. The lemmas about it show that successful
  signups get ids n+1, n+2, … in order, where n is the starting number of users, and that emails stay distinct.

The wider chat application also has a message relay, a friendship graph,
presence tracking and paginated history. None of them is implemented in
`server.py`, so none is modelled here. Descriptions of the application treat
signup as a collaborator outside the chat core. This model follows the code,
where signup is the only logic.

## Model

| member | source | states |
|---|---|---|
| `PyStr.LeadingWhitespace` | server.py:31-35 | the left scan of `strip()`: every character before the returned index is whitespace, and the character at it, if any, is not |
| `PyStr.TrailingWhitespace` | server.py:31-35 | the right scan of `strip()`: the returned number of final characters are all whitespace, and the character just before them, if any, is not |
| `PyStr.StripEmptyIff` | server.py:31-35 | `not s.strip()` holds exactly when every character of `s` is whitespace, including the empty string |
| `PyStr.StripShape` | server.py:31-35 | `strip()` keeps a contiguous slice of the input whose margins are all whitespace and whose first and last characters are not whitespace |
| `Server.Validate` | server.py:31-41 | the field checks in order: a blank name gives "Name is required"; otherwise a blank email gives "Email is required"; otherwise fewer than 8 characters gives the too-short error (exactly 8 passes); otherwise a differing confirmation gives "Passwords don't match"; the request passes only when all four hold |
| `Server.Check` | server.py:31-46 | the reported error is one whose check fails; no error is reported exactly when the name and email are not blank, the password has at least 8 characters and equals its confirmation, and no stored email is exactly equal |
| `Server.CheckReportsFirstFailure` | server.py:31-46 | every check that runs before the reported one passes, so the reported error is the first failing check in the order name, email, length, match, duplicate |
| `Server.SignupEffect` | server.py:31-55 | a refused signup answers status 400 with the detail of the refusing check and leaves the store unchanged; an accepted one appends exactly `{name, email, password}` at the end, keeps all earlier records, and answers "User created successfully" with `user_id` equal to the new length |
| `Server.EightCharactersSuffice` | server.py:37-38 | a password of exactly 8 characters is not refused by the length check |
| `Server.SignupKeepsEmailsDistinct` | server.py:44-53 | if stored emails are pairwise distinct before a signup, they are afterwards |
| `Server.RepeatSignupRefused` | server.py:44-46 | repeating an accepted request against the updated store is refused with 400 "Email already exists" |
| `Server.RunIssuesConsecutiveIds` | server.py:49-55 | across any series of signups, the k-th successful one (counting from 0) gets id n+k+1, where n is the starting number of users; the store grows by one record per issued id; earlier records stay in place |
| `Server.IssuedIdsIncrease` | server.py:49-55 | the user ids handed out by a series of signups strictly increase, so none repeats |
| `Server.RunKeepsEmailsDistinct` | server.py:44-53 | across any series of signups from a store with distinct emails, stored emails stay pairwise distinct |
| `Server.UserStore.constructor` | server.py:21 | the store starts as the empty list, which satisfies the distinct-email invariant |
| `Server.UserStore.EmailRegistered` | server.py:44-46 | the scan over the stored users returns true exactly when some stored user has this exact email |
| `Server.UserStore.Signup` | server.py:28-55 | the handler keeps the distinct-email invariant; its answer and new store are those of `SignupResult`; a refusal leaves the store unchanged with status 400; a success appends the new record and returns the new length as `user_id` |

## Left out

- The FastAPI application object, the static-file mount and the route decorators are web-framework plumbing.
- `get_signup_page` only reads `index.html` from disk and returns it. This is file I/O and has no logic to model.
- Starting `uvicorn` is process bootstrap.
- Pydantic parsing of the request body is library behaviour. The model takes the four fields as already-parsed strings, so a missing or non-string field (answered 422 by the framework) is not modelled.
- `async` is not modelled. The handler has no `await` between the duplicate scan and the append, so one call is treated as a single atomic step.
- The stored password is kept exactly as given. The source does no hashing and no persistence, and neither does the model.
- Python's `len` on a `str` counts code points. The model counts Unicode scalar values, which is the same for every string Python can hand the handler except ones containing lone surrogates.
- The success answer's HTTP status (200, the framework default) is not modelled. Only its body is.
