# Creations ledger, sidebar navigation and object-removal form — a Dafny model

This project models the application logic of an AI-content web app:

- **The creations ledger** (`server/controllers/userController.js`). This is the `creations` table and its three request handlers:
  - list the caller's creations, newest first;
  - list the published creations, newest first;
  - toggle the caller's like on one creation.

  The toggle reads the row, flips the caller in the row's `likes` list, serialises the new list as a text-array literal, and writes it back to that row.
- **The sidebar** (`client/src/components/Sidebar.jsx`). This covers which navigation entry is highlighted for a pathname, the duplicate-free list of rendered entry nodes, and closing the sidebar after a click on a narrow window.
- **The object-removal form** (`client/src/pages/RemoveObject.jsx`). This covers the file-type filter, the ordered guards on submit (image present, object named, a single word), the request body that is sent, and how the reply updates the page.

Files:

- `wrappers.dfy` holds `Option`.
- `collections.dfy` holds `Distinct`, `Subsequence` and `StartsWith`, with two lemmas about them.
- `array_literal.dfy` holds the literal formatter and the database-side reader of such literals. The reader follows array value input, section 8.15.2 of the PostgreSQL documentation, restricted to quoted elements.
- `ledger.dfy` holds the rows, the listings, the like toggle and the `CreationStore` class.
- `sidebar.dfy` holds the navigation rule and the `SidebarView` class.
- `remove_object.dfy` holds trimming, splitting, the submit guards and the `RemoveObjectPage` class.

Modelling choices:

- **The table.** It is a `seq<Creation>` field of `CreationStore`. `Valid()` says the `id` column is a key.
- **Lookup and update.** `SELECT … WHERE id` takes the first matching row, as `const [creation]` does. `UPDATE … WHERE id` rewrites every matching row. Under `Valid()` both concern the same single row.
- **NULL likes.** A NULL `likes` column is `None` and is read as the empty list (`creation.likes || []`). After a successful toggle the column is always `Some`.
- **The `::text[]` cast.** It is modelled by `ArrayLiteral.Parse` applied to the formatted literal. If the literal does not parse, that is the database error the handler's `catch` turns into `{success: false}`, and nothing is written.
- **Sorting.** `ORDER BY created_at DESC` is a stable insertion sort. Its contract promises only what SQL promises: newest first, and exactly the selected rows. The order of rows with equal timestamps belongs to the engine.
- **The caller and the window.** The caller's id (`req.auth()`) and the window width are parameters.
- **Outputs.** Toasts and JSON envelopes are returned values.
- **The submit request.** It is split in two. `OnSubmit` runs the guards, sets loading, clears the old result and records the body sent. `FinishRequest` takes the server's reply as a parameter.

Where the design description and the code disagree, the model follows the code:

- `likes` is a list, not a set. Duplicates that are already stored stay until an unlike removes every copy.
- The toggle is a non-atomic read-then-write. The model gives one sequential request; see "Left out".

## Model

| member | source | states |
|---|---|---|
| `Ledger.ListByOwner` | server/controllers/userController.js:6-11 | The result holds exactly the rows whose owner is the caller, each as often as in the table, and no other row. It is ordered newest first. |
| `Ledger.ListPublished` | server/controllers/userController.js:21-25 | The result holds exactly the published rows, each as often as in the table. An unpublished row never appears. It is ordered newest first. |
| `Ledger.SortNewestFirst` | server/controllers/userController.js:10 | `ORDER BY created_at DESC`: the output is in non-increasing `created_at` order and is a permutation of the input. |
| `Ledger.CurrentLikes` | server/controllers/userController.js:47 | `creation.likes \|\| []`: a NULL `likes` column reads as the empty list, and a stored list reads as itself. |
| `Ledger.Select` | server/controllers/userController.js:9 | The `WHERE` filter: each row that passes is kept with its multiplicity; each row that fails is absent. |
| `Ledger.Lookup` | server/controllers/userController.js:38-43 | Finds a row with the requested id, or returns None exactly when no row has that id. |
| `Ledger.RemoveAll` | server/controllers/userController.js:54 | The caller no longer appears. Every other id keeps its count. The survivors keep their relative order. |
| `Ledger.ToggleLikes` | server/controllers/userController.js:47-59 | The caller's membership flips. The reaction is Unliked exactly when the caller was present. Nobody else's count changes. An unlike keeps the rest in order. A like appends the caller once at the end. |
| `Ledger.ToggleTwice` | server/controllers/userController.js:53-58 | Two toggles restore the caller's membership. From "not liked" they restore the list exactly. From "liked" every copy is replaced by one at the end. |
| `Ledger.ToggleKeepsDistinct` | server/controllers/userController.js:53-58 | A duplicate-free likes list stays duplicate-free after a toggle. |
| `Ledger.ToggleExample` | server/controllers/userController.js:53-58 | Toggling "c" on ["a","b"] gives ["a","b","c"] with Liked. Toggling "a" on that result gives ["b","c"] with Unliked. |
| `Ledger.PlainToggleRoundTrip` | server/controllers/userController.js:62-66 | For ids without quotes or backslashes, the database reads back exactly the toggled list from the literal. |
| `Ledger.CreationStore.ToggleLike` | server/controllers/userController.js:33-74 | An unknown id answers "Creation not found" and leaves the table unchanged. An unparsable literal fails and leaves the table unchanged. Otherwise the answer is success with "Creation Liked" or "Creation Unliked", and only the `likes` field of the rows with that id changes. For plain ids that field becomes exactly the toggled list. |
| `ArrayLiteral.JoinQuoted` | server/controllers/userController.js:62 | A non-empty list joins to text that starts with a quote and holds at least two characters. |
| `ArrayLiteral.Format` | server/controllers/userController.js:62 | The literal is wrapped in `{` and `}`. It is `{}` exactly for the empty list. |
| `ArrayLiteral.Parse` | server/controllers/userController.js:66 | Stands for the `::text[]` cast of the literal. It accepts only braces around a comma-separated list of double-quoted elements, where a backslash takes the next character literally. Anything it reads is wrapped in braces, and it reads the empty list exactly from `{}`. Unquoted elements and white space around elements, which the database also accepts, are rejected here (see "Left out"). |
| `ArrayLiteral.FormatRoundTrip` | server/controllers/userController.js:62 | For ids with no `"` and no `\`, parsing the formatted literal gives back the same list. |
| `ArrayLiteral.RoundTripOnlyIfPlain` | server/controllers/userController.js:62 | The converse: if parsing the formatted literal gives back the list sent, no id held a `"` or a `\`. |
| `ArrayLiteral.FormatRoundTripIff` | server/controllers/userController.js:62 | The literal carries a list unchanged exactly when no id holds a `"` or a `\`. |
| `ArrayLiteral.QuoteBreaksLiteral` | server/controllers/userController.js:62 | The single id `a"b` is formatted as `{"a"b"}`, which is rejected. |
| `ArrayLiteral.QuoteSplitsId` | server/controllers/userController.js:62 | The single id `a","b` is formatted exactly as the two ids `a` and `b`, and is read back as those two likes. |
| `ArrayLiteral.BackslashIsDropped` | server/controllers/userController.js:62 | The single id `a\b` is read back as `ab`. |
| `Sidebar.IsActive` | client/src/components/Sidebar.jsx:304-306 | The `isActive` expression. An entry is active on its own target, and only on paths that begin with its target. |
| `Sidebar.NavTargetsShape` | client/src/components/Sidebar.jsx:207-217 | Describes the `NavTargets` constant (`navItems`). There are nine targets, all different: `/`, then `/ai`, then seven tool pages one segment below `/ai/`. |
| `Sidebar.ActiveOnExactMatch` | client/src/components/Sidebar.jsx:304-305 | An entry is highlighted when the pathname equals its target. |
| `Sidebar.DashboardOnlyExact` | client/src/components/Sidebar.jsx:306 | The `/ai` entry is highlighted exactly on `/ai`, never by prefix. |
| `Sidebar.ActiveBelowTarget` | client/src/components/Sidebar.jsx:304-306 | Any other entry is highlighted exactly on its target or on a path that continues the target with `/`. |
| `Sidebar.SharedPrefixIsNotEnough` | client/src/components/Sidebar.jsx:306 | `/ai/communityX` does not highlight `/ai/community`. |
| `Sidebar.AtMostOneActive` | client/src/components/Sidebar.jsx:207-217 | With the fixed entry list, at most one entry is highlighted for any pathname. |
| `Sidebar.OwnPageHighlightsOnlyItsEntry` | client/src/components/Sidebar.jsx:303-306 | On an entry's own target, that entry and no other is highlighted. |
| `Sidebar.SidebarView.AddToNavRefs` | client/src/components/Sidebar.jsx:266-268 | A null node, or a node already collected, leaves the list unchanged. Any other node is appended at the end. The list stays duplicate-free. |
| `Sidebar.SidebarView.HandleNavClick` | client/src/components/Sidebar.jsx:270-272 | A width below 768 closes the sidebar. Any other width leaves it unchanged. The collected nodes are untouched. |
| `RemoveObject.Trim` | client/src/pages/RemoveObject.jsx:101 | The result begins and ends with a non-white character, and is empty exactly when the input is all white space. |
| `RemoveObject.TrimCutsWhitespace` | client/src/pages/RemoveObject.jsx:101 | The trimmed text is a contiguous slice of the input. Everything before it and everything after it is white space. |
| `RemoveObject.SplitOnSpace` | client/src/pages/RemoveObject.jsx:105 | There is at least one piece and no piece holds a space. There is more than one piece exactly when the text holds a space. |
| `RemoveObject.SplitJoin` | client/src/pages/RemoveObject.jsx:105 | The pieces joined with single spaces give back the text. |
| `RemoveObject.ValidateSubmission` | client/src/pages/RemoveObject.jsx:119-120 | An accepted form sends the image the user chose. |
| `RemoveObject.SubmitGuards` | client/src/pages/RemoveObject.jsx:97-107 | The guards run in order: a missing image is rejected first, then a blank object name, then a name with a space. Acceptance happens exactly when all three pass. The accepted body carries the image and the trimmed name, which is non-empty, has no space and has no white space at either end. |
| `RemoveObject.OrElse` | client/src/pages/RemoveObject.jsx:140 | JavaScript `a \|\| b` on strings, where the empty string is falsy: the result is non-empty exactly when either side is. |
| `RemoveObject.RemoveObjectPage.HandleFileChange` | client/src/pages/RemoveObject.jsx:79-91 | No file changes nothing. A JPEG, PNG or WEBP file sets both the image and the shown file name, with a success toast. Any other type leaves both unchanged, with the error toast. |
| `RemoveObject.RemoveObjectPage.OnSubmit` | client/src/pages/RemoveObject.jsx:94-126 | A rejection shows the guard's message and leaves loading, the result and the sent body as they were. An acceptance sets loading, clears the result and sends exactly the validated body. |
| `RemoveObject.RemoveObjectPage.FinishRequest` | client/src/pages/RemoveObject.jsx:137-145 | A successful answer shows the returned image URL. A failed answer or a thrown error shows the first non-empty message of the fallback chain. Loading ends either way. |
| `RemoveObject.RemoveObjectPage.SetObject` | client/src/pages/RemoveObject.jsx:187 | The object field becomes the typed text. |

## Left out

- **The SQL engine, the driver and `req.auth()`.** These are foreign calls. The table is in memory and the caller id is a parameter. Storage failures other than the rejected array literal are not modelled. The handler's `catch` would pass their message on in the same failure envelope.
- **The lost-update race.** Two concurrent toggles on one row can both read the same `likes` and the second write discards the first. This is concurrency; the model runs one request at a time.
- Ledger.CreationStore.ToggleLike: for a caller id containing `"`, the model can answer failure where the database would write. The formatter can then emit unquoted elements or white space around commas. For example, the id `a",b,"c` on a row with NULL likes gives `{"a",b,"c"}`, which the database stores as three likes. `ArrayLiteral.Parse` accepts quoted elements only, so the model rejects that literal. Caller ids come from the identity provider and never contain quotes. For ids without quotes or backslashes the model and the database agree (`ArrayLiteral.FormatRoundTripIff`).
- ArrayLiteral.Parse: unquoted elements, white space around elements, `NULL` and nested arrays from array value input are not modelled.
- **Full JavaScript white space.** `RemoveObject.IsWhitespace` lists the JavaScript white-space and line-terminator characters as fixed code points. It does not follow later Unicode revisions of the space-separator category.
- **Rendering and UI effects.** React rendering, routing, GSAP animations, toasts as UI, the button-press animation, and the mount animations in the sidebar are UI. Their messages are returned values.
- **Requests.** Axios requests, the auth token header and `FormData` encoding are I/O. The reply is a parameter of `FinishRequest`.
- **The `setSidebar` default.** The prop's default no-op is not modelled. `HandleNavClick` models a parent that does hold the state.
- **Repeated helpers.** The MIME-type filters in ReviewResume.jsx and RemoveBackground.jsx follow the same pattern as the one here, with their own lists of accepted types. The ref-append helper in AiTools, Testimonial and Footer is the same as the sidebar's. Neither is modelled again.
