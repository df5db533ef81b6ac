# Book log: controller dispatch, review grouping, sign-up and login forms

This project is a Dafny model of three small pieces of a book-review web application:

- **The book controller** (`server/controllers/book.js`). Its two handlers, `list` and `reviews`, follow the same rule. An
  unauthorized caller gets 401 `Invalid user` and the model layer is never queried. A model-layer error gives
  500 `Server Error`. Otherwise the reply is `OK` with data. `reviews` also takes the book's title and thumbnail from the
  first row, and groups the flat review rows into one bucket per page. It does this in one pass that fills a plain
  object `temp` keyed by page, then lists the buckets with `Object.values(temp)`.
- **The sign-up form** (`client/src/components/user/SignUp.js`). `handleInputValue` updates one field.
  `handleLogin` is a prioritised validation chain that sets at most one error message.
- **The login form** (`client/src/components/user/Login.tsx`). `handleInputValue` routes an input to one field by a
  type tag. `loginRequest` checks that both fields are filled, calls the login API, and then either runs the parent's
  callbacks and navigates, or sets an error message.

Modules:

- `Wrappers` (wrappers.dfy): `Option`.
- `JsObject` (js_object.dfy): the ECMAScript property-order rule that `Object.values` follows. For array-index keys,
  section 10.1.11.1 of ECMA-262 (2022 edition), OrdinaryOwnPropertyKeys, lists the keys in ascending numeric order.
  `OwnKeys` gives that order and `Values` lists the values in it.
- `BookController` (book_controller.dfy): the handlers `List` and `Reviews`, and the grouping method `GroupByPage`.
  `GroupByPage` is a loop over the rows that updates a map `temp`, followed by `Values(temp)`. It is proved against the
  predicate `IsGrouping`, and further lemmas are proved about that predicate.
- `SignUp` (sign_up.dfy) and `Login` (login.dfy): the form logic, as functions and a method on state values.

Foreign calls are inputs:

- `isAuthorized(req)` becomes `auth: Option<Identity>`.
- The model layer's callback arguments become `stored: Stored<T>`, which is `StorageError` or `Found(rows)`. Each
  handler returns the query it issued (`Handled.query`), so "the model layer is never called" is stated as
  `query == None`.
- The awaited `userApi.login` call becomes `outcome: LoginOutcome` (`Success(username)`, `ErrorThrown`,
  `NonErrorThrown`).
- React state setters become returned states. The callbacks `handleUsername`, `handleLogin` and `navigate`, and the
  API call itself, are returned in order as `Effect`s.

Two behaviours of the code deserve a note:

- **Bucket order.** `Object.values` lists integer keys in ascending order, so buckets come out sorted by page, not in
  the order pages are first seen. `AscendingNotFirstSeen` shows this on two rows.
- **Empty row list.** The code reads `reviewList[0].title` unconditionally, so an empty row list throws a TypeError
  inside the storage callback. When the model layer calls back asynchronously, no reply is sent. The model returns
  `Thrown` for this case, and `Reviews` states that it happens exactly for an empty row list.

## Model

| member | source | states |
|---|---|---|
| `BookController.List` | server/controllers/book.js:5-18 | No identity gives exactly 401 `Invalid user` with no model-layer query. With an identity, the books of that user id are queried. A storage error gives exactly 500 `Server Error`. `OK` happens exactly on success, with status 200 and `book_list` equal to the stored list unchanged. |
| `BookController.Reviews` | server/controllers/book.js:19-46 | The same 401 and 500 rules, with the query carrying the user id and the route's `book_id`. An empty row list throws, exactly. `OK` happens exactly for a non-empty row list, with status 200, `book_data` equal to the first row's title and thumbnail, and `review_list` satisfying `IsGrouping` of the rows. |
| `BookController.GroupByPage` | server/controllers/book.js:33-41 | The one-pass fill of `temp` followed by `Object.values` yields the grouping of the rows. Buckets are in strictly ascending page order, one per page that occurs, and each holds exactly its page's entries in row order. |
| `BookController.GroupingCount` | server/controllers/book.js:34-40 | The buckets of a grouping hold exactly as many entries as there are rows. |
| `BookController.RowInOneBucket` | server/controllers/book.js:34-40 | Each row's `{review_id, created_at, review}` is in the bucket whose page is the row's page, and exactly one bucket has that page. |
| `BookController.EntriesKeepRowOrder` | server/controllers/book.js:39 | Two rows on the same page appear in their page's entries in input-row order. |
| `BookController.GroupingNoEmptyBucket` | server/controllers/book.js:36-39 | No bucket of a grouping is empty. |
| `BookController.GroupingUnique` | server/controllers/book.js:33-41 | A row list has only one grouping, so the properties above fix the handler's `review_list` completely. |
| `BookController.EntriesOnEmpty` | server/controllers/book.js:36-37 | A page has a bucket entry exactly when some row is on that page. |
| `BookController.AscendingNotFirstSeen` | server/controllers/book.js:41 | Rows on page 2 then page 1 give the page-1 bucket first, so buckets are not in first-seen order. |
| `JsObject.OwnKeys` | server/controllers/book.js:41 | The array-index keys of an object are listed in strictly ascending order, each key exactly once. |
| `JsObject.Values` | server/controllers/book.js:41 | `Object.values` lists one value per key, and the i-th value belongs to the i-th key in ascending order. |
| `SignUp.HandleInputValue` | client/src/components/user/SignUp.js:16-18 | The field `key` takes the new value and the other three fields keep theirs. |
| `SignUp.Validate` | client/src/components/user/SignUp.js:21-29 | At most one message, with each message's exact trigger. A password or repassword shorter than 8 gives the length message whatever else holds, so an empty password gets it too. Otherwise an empty email or username gives the missing-fields message. Otherwise different passwords give the mismatch message. Otherwise no message is set. |
| `SignUp.HandleLogin` | client/src/components/user/SignUp.js:19-31 | The fields are unchanged. The error message is replaced by the validation message when there is one, and is otherwise left as it was (it is not cleared). |
| `Login.HandleInputValue` | client/src/components/user/Login.tsx:15-20 | Tag `email` sets only the email and tag `password` sets only the password. Any other tag changes nothing. The error message never changes. |
| `Login.LoginRequest` | client/src/components/user/Login.tsx:22-43 | An empty email or password sets the "enter email and password" message and makes no call. Otherwise the login API is called first. On success, `handleUsername(username)`, then `handleLogin()`, then navigation to `/booklist`, and the state is unchanged. An `Error` sets the wrong-credentials message. Any other thrown value changes nothing. The credentials never change, and `handleLogin` is called exactly on success. |

## Left out

- The token check (`isAuthorized` in `./tokenFunctions`) is not part of this model. It is an input that gives an identity or nothing.
- The model layer (`book.list`, `book.reviews` and their database queries) is not part of this model. Its callback arguments are an input.
- HTTP and Express plumbing is not modelled. A response is a `{status, message, data}` value. What Express does after the TypeError thrown for an empty row list is not modelled beyond `Thrown`. With an asynchronous callback no reply is sent, or the process crashes. With a synchronous callback, Express would catch the error and reply 500.
- `BookController.Book` is opaque. The `list` handler passes the model layer's rows through without looking at them.
- `BookController.Page`: pages are modelled as ECMAScript array indices (integers below 2^32 - 1). The source's pages come from storage untyped. A page given as the string `"1"` would share a key with the number `1`, and a page that is not an array index would be listed after the array-index keys in insertion order. Neither case is modelled.
- `SignUp.Validate`: lengths are counted in Unicode scalar values. JavaScript's `.length` counts UTF-16 code units, so the two differ for characters outside the Basic Multilingual Plane.
- `SignUp.HandleInputValue`: the key is one of the four fields. The source would also accept any other string and add a new property, but no caller does that. The stale-closure behaviour of React state updates is not modelled.
- The sign-up request that `handleLogin` should send when validation passes is only a comment in the source. It is not modelled, and neither is the global `axios.defaults.withCredentials` setting.
- `Login.LoginRequest`: the backend call is an input. A malformed success body that makes reading `result.data.data.username` throw is covered only by `ErrorThrown`, since the source handles it the same way. The parent's callbacks `handleUsername` and `handleLogin`, and `navigate`, are assumed not to throw. They run inside the same `try` as the API call. If one of them throws an `Error`, the source has already delivered the earlier callbacks and then sets the wrong-credentials message; if it throws any other value, the earlier callbacks stay delivered and the message is unchanged. Neither run is modelled. `googleLoginRequest` and its `window.location.href` redirect are not part of this model.
- JSX markup, styled-components definitions, routing, and the review list display component are not part of this model.
