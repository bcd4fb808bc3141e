# Shopping mall authorization and table invariants, in Dafny

This project models the authorization and consistency layer of a small
Spring Boot and Vue shopping mall:

- the four services that guard writes: `QnaService`, `ReviewService`,
  `WishlistService` and `ProductService`;
- the authentication controller `AuthController`;
- the browser router's navigation guard, and the client's token store
  (`authService.js`).

Each service file becomes two modules:

- `XSpec` holds the rows as datatypes and the tables as maps from keys to
  rows. Every operation is a function from the old tables to the new tables
  and the service's answer, which is a value or an error naming the
  exception thrown. `Consistent` is the invariant every reachable state
  keeps, such as "a question is marked answered exactly when an answer row
  exists" or "one review per user and product". The lemmas state what each
  operation guarantees.
- `XService` is a class whose fields are those tables. Its methods check and
  write step by step, as the Java code does. Each method is proved to
  produce exactly what the `XSpec` function describes. The question, review,
  product and user tables also carry `Valid()`, which is `Consistent` of the
  fields, and every method of those classes keeps it.

Modelling choices:

- `createdAt` is a counter (`clock`) that each insert advances. Keys come
  from per-table sequences. Under `Consistent`, "ordered by `createdAt`
  descending" is therefore the descending key order computed by
  `Common.Select`.
- Tables a service only reads are parameters: the user table as
  `map<Id, User>` and the product keys as `set<Id>`.
- The JWT provider, the password encoder and the authentication manager
  have no visible code, so they are function-typed parameters.
- The average rating is an integer number of tenths. It equals the
  `Math.round(avg * 10)` of the Java code evaluated in exact arithmetic.

Behaviour of the code that the model keeps as it is:

- A page index below 0 or a size below 1 is an error (`InvalidPage`),
  because `PageRequest.of` throws for them. A page past the end is empty.
- Ownership and role failures are the `RuntimeException`s the services
  throw, each with its own error constructor; the services do not produce a
  separate "Forbidden" reply.
- `createReview` checks for a duplicate review before it checks the rating
  range.

## Model

| member | source | states |
|---|---|---|
| Common.Select | src/main/java/com/example/view_shoppingmall/service/QnaService.java:52-57 | The keys kept by a derived `findBy…OrderByCreatedAtDesc` query: exactly the stored rows passing the filter, in strictly descending key order |
| Common.DecreasingCardinality | src/main/java/com/example/view_shoppingmall/service/ReviewService.java:42-44 | A strictly descending key list has no repeats, so its length equals the size of its key set |
| Common.ContainsAt | src/main/java/com/example/view_shoppingmall/service/ProductService.java:42-46 | An occurrence of the keyword at some position makes `…Containing` match |
| Common.ContainsOccurrence | src/main/java/com/example/view_shoppingmall/service/ProductService.java:42-46 | A `…Containing` match yields a position where the keyword occurs |
| Common.Paged | src/main/java/com/example/view_shoppingmall/service/QnaService.java:30-34 | A page is refused exactly when the index is negative or the size is below 1; otherwise it holds at most `size` items, item `i` is item `page*size+i` of the whole list, and the page is full whenever it does not run off the end |
| QnaSpec.EmptyConsistent | src/main/java/com/example/view_shoppingmall/service/QnaService.java:23-28 | The empty tables satisfy the invariant |
| QnaSpec.SearchQuestions | src/main/java/com/example/view_shoppingmall/service/QnaService.java:37-42 | Fails exactly for an invalid page; every listed question has the keyword in its title or content |
| QnaSpec.Questions | src/main/java/com/example/view_shoppingmall/service/QnaService.java:30-34 | Fails exactly for an invalid page; lists only stored questions |
| QnaSpec.QuestionById | src/main/java/com/example/view_shoppingmall/service/QnaService.java:45-49 | Fails exactly for a missing id; otherwise returns that question, with an answer only if it is an answer to that question |
| QnaSpec.QuestionByIdShowsAnswer | src/main/java/com/example/view_shoppingmall/service/QnaService.java:45-49 | For a stored question, the read carries an answer exactly when an answer to that question is stored |
| QnaSpec.FailuresChangeNothing | src/main/java/com/example/view_shoppingmall/service/QnaService.java:61-121 | A create or delete that throws leaves both tables as they were |
| QnaSpec.CreateQuestionEffect | src/main/java/com/example/view_shoppingmall/service/QnaService.java:61-73 | Fails exactly for an unknown user. On success it adds one new, unanswered question with the caller as owner and the given title and content, and keeps every other row |
| QnaSpec.DeleteQuestionEffect | src/main/java/com/example/view_shoppingmall/service/QnaService.java:77-88 | Succeeds exactly for the author. A missing question is reported before authorship. Success removes the question and every answer row to it, and keeps every other question and answer unchanged |
| QnaSpec.CreateAnswerEffect | src/main/java/com/example/view_shoppingmall/service/QnaService.java:92-121 | Checks run in order: user, admin role, question, not yet answered, and the first that fails names the error (user not found, admin only, question not found, already answered). Success needs all four and is independent of who owns the question. It stores one new answer by that admin with the given content and keeps every existing answer. The question changes only in its answered flag, and the other questions are untouched |
| QnaSpec.AnswerOnlyOnce | src/main/java/com/example/view_shoppingmall/service/QnaService.java:104-107 | After an answer, a second answer to the same question fails; for an admin it fails as "already answered" |
| QnaSpec.CreateQuestionConsistent | src/main/java/com/example/view_shoppingmall/service/QnaService.java:61-73 | Creating a question keeps the invariant |
| QnaSpec.DeleteQuestionConsistent | src/main/java/com/example/view_shoppingmall/service/QnaService.java:85-87 | Deleting a question with its answer keeps the invariant; no answer is left pointing at a missing question |
| QnaSpec.CreateAnswerConsistent | src/main/java/com/example/view_shoppingmall/service/QnaService.java:109-118 | Saving the answer together with the answered flag keeps "answered exactly when an answer exists" and one answer per question |
| QnaSpec.MyQuestionsSpec | src/main/java/com/example/view_shoppingmall/service/QnaService.java:52-57 | Lists exactly the caller's questions, newest first |
| QnaSpec.MatchingSpec | src/main/java/com/example/view_shoppingmall/service/QnaService.java:37-42 | The search lists exactly the questions whose title or content contains the keyword, newest first |
| QnaSpec.AnsweredQuestionShowsAnswer | src/main/java/com/example/view_shoppingmall/service/QnaService.java:45-49 | After an answer is created, reading the question by id shows it answered and carrying that answer |
| QnaService.QnaService.constructor | src/main/java/com/example/view_shoppingmall/service/QnaService.java:23-28 | Starts with empty, consistent tables |
| QnaService.QnaService.CreateQuestion | src/main/java/com/example/view_shoppingmall/service/QnaService.java:61-73 | The new tables and the result are those of `QnaSpec.CreateQuestion`; the invariant is kept |
| QnaService.QnaService.DeleteQuestion | src/main/java/com/example/view_shoppingmall/service/QnaService.java:77-88 | The new tables and the result are those of `QnaSpec.DeleteQuestion`; the invariant is kept |
| QnaService.QnaService.CreateAnswer | src/main/java/com/example/view_shoppingmall/service/QnaService.java:92-121 | The new tables and the result are those of `QnaSpec.CreateAnswer`; the invariant is kept |
| ReviewSpec.EmptyConsistent | src/main/java/com/example/view_shoppingmall/service/ReviewService.java:21-26 | The empty review table satisfies the invariant |
| ReviewSpec.RoundedTenthsIsHalfUp | src/main/java/com/example/view_shoppingmall/service/ReviewService.java:36-39 | The tenths value is the mean times ten rounded half up: r - 1/2 <= 10*sum/n < r + 1/2 |
| ReviewSpec.RoundedTenthsBounds | src/main/java/com/example/view_shoppingmall/service/ReviewService.java:36-39 | A mean of ratings in [1, 5] rounds to between 1.0 and 5.0 |
| ReviewSpec.RatingSumBounds | src/main/java/com/example/view_shoppingmall/service/ReviewService.java:36-39 | A sum of n ratings in [1, 5] lies between n and 5n |
| ReviewSpec.ReviewCountSpec | src/main/java/com/example/view_shoppingmall/service/ReviewService.java:42-44 | The count is the number of stored reviews of that product |
| ReviewSpec.AverageRatingSpec | src/main/java/com/example/view_shoppingmall/service/ReviewService.java:36-39 | 0 without reviews. Otherwise it is the mean rating rounded half up to tenths, between 1.0 and 5.0 |
| ReviewSpec.FailuresChangeNothing | src/main/java/com/example/view_shoppingmall/service/ReviewService.java:48-86 | A create or delete that throws leaves the table as it was |
| ReviewSpec.CreateReviewEffect | src/main/java/com/example/view_shoppingmall/service/ReviewService.java:48-72 | A duplicate is refused first, then an out-of-range rating. Success needs no duplicate, a rating in [1, 5], a known product and a known user. It adds exactly one review with that rating, content, product and user and keeps the others |
| ReviewSpec.DeleteReviewEffect | src/main/java/com/example/view_shoppingmall/service/ReviewService.java:76-86 | Succeeds exactly for the author. A missing review is reported first. Success removes exactly that review |
| ReviewSpec.CreateReviewConsistent | src/main/java/com/example/view_shoppingmall/service/ReviewService.java:48-72 | Creating keeps ratings in range and one review per user and product |
| ReviewSpec.DeleteReviewConsistent | src/main/java/com/example/view_shoppingmall/service/ReviewService.java:76-86 | Deleting keeps the invariant |
| ReviewSpec.IdsAfterInsert | src/main/java/com/example/view_shoppingmall/service/ReviewService.java:65-71 | Saving a new review adds its key to its own product's review set only |
| ReviewSpec.IdsAfterRemove | src/main/java/com/example/view_shoppingmall/service/ReviewService.java:85 | Deleting a review removes its key from its own product's review set only |
| ReviewSpec.CountAfterCreate | src/main/java/com/example/view_shoppingmall/service/ReviewService.java:42-72 | The count is never stale: a new review adds one to its product's count and changes no other product's count |
| ReviewSpec.CountAfterDelete | src/main/java/com/example/view_shoppingmall/service/ReviewService.java:42-86 | A deleted review takes one off its product's count and changes no other product's count |
| ReviewService.ReviewService.constructor | src/main/java/com/example/view_shoppingmall/service/ReviewService.java:21-26 | Starts with an empty, consistent table |
| ReviewService.ReviewService.CreateReview | src/main/java/com/example/view_shoppingmall/service/ReviewService.java:48-72 | The new table and the result are those of `ReviewSpec.CreateReview`; the invariant is kept |
| ReviewService.ReviewService.DeleteReview | src/main/java/com/example/view_shoppingmall/service/ReviewService.java:76-86 | The new table and the result are those of `ReviewSpec.DeleteReview`; the invariant is kept |
| WishlistSpec.UserWishlist | src/main/java/com/example/view_shoppingmall/service/WishlistService.java:67-72 | A product is on a user's wishlist exactly when `isInWishlist` holds for that user and product |
| WishlistSpec.AddEffect | src/main/java/com/example/view_shoppingmall/service/WishlistService.java:29-49 | Checks run in order: unknown user, unknown product, pair already present. It succeeds exactly when none of the three holds. Any failure leaves the set unchanged. Success makes the pair present where it was absent. No other pair changes |
| WishlistSpec.RemoveEffect | src/main/java/com/example/view_shoppingmall/service/WishlistService.java:55-61 | Fails exactly for an absent pair and then changes nothing. Success removes exactly that pair |
| WishlistSpec.AddThenRemove | src/main/java/com/example/view_shoppingmall/service/WishlistService.java:29-61 | A successful add followed by a remove of the same pair restores the set |
| WishlistSpec.RemoveThenAdd | src/main/java/com/example/view_shoppingmall/service/WishlistService.java:29-61 | For a known user and product, a successful remove followed by an add restores the set |
| WishlistSpec.OtherUsersUnaffected | src/main/java/com/example/view_shoppingmall/service/WishlistService.java:67-72 | One user's add or remove does not change another user's wishlist |
| WishlistService.WishlistService.constructor | src/main/java/com/example/view_shoppingmall/service/WishlistService.java:19-23 | Starts with no entries |
| WishlistService.WishlistService.AddToWishlist | src/main/java/com/example/view_shoppingmall/service/WishlistService.java:29-49 | The new set and the result are those of `WishlistSpec.Add` |
| WishlistService.WishlistService.RemoveFromWishlist | src/main/java/com/example/view_shoppingmall/service/WishlistService.java:55-61 | The new set and the result are those of `WishlistSpec.Remove` |
| ProductSpec.AllProductsSpec | src/main/java/com/example/view_shoppingmall/service/ProductService.java:21-25 | `getAllProducts` lists every stored product exactly once, each under its key with its stored fields |
| ProductSpec.AllKeysListed | src/main/java/com/example/view_shoppingmall/service/ProductService.java:21-25 | The full scan yields as many keys as the table holds |
| ProductSpec.Dtos | src/main/java/com/example/view_shoppingmall/service/ProductService.java:21-25 | Converts each listed row, in order, one DTO per key |
| ProductSpec.ConversionRoundTrip | src/main/java/com/example/view_shoppingmall/service/ProductService.java:83-104 | Entity to DTO to entity is the identity; DTO to entity to DTO keeps the six fields and replaces the id with the row's key |
| ProductSpec.ProductByIdSpec | src/main/java/com/example/view_shoppingmall/service/ProductService.java:28-32 | Fails exactly for a missing key; otherwise returns that row under its key |
| ProductSpec.ProductsByCategorySpec | src/main/java/com/example/view_shoppingmall/service/ProductService.java:35-39 | Lists exactly the stored products of that category, each once |
| ProductSpec.SearchProductsSpec | src/main/java/com/example/view_shoppingmall/service/ProductService.java:42-46 | Lists exactly the stored products whose name contains the keyword, each once |
| ProductSpec.CreateProductEffect | src/main/java/com/example/view_shoppingmall/service/ProductService.java:50-54 | Adds one row under a fresh key with the DTO's six fields, ignoring the DTO's id, and keeps the other rows |
| ProductSpec.UpdateProductEffect | src/main/java/com/example/view_shoppingmall/service/ProductService.java:58-71 | Fails exactly for a missing key and then changes nothing. Otherwise all six fields of that row are overwritten and no other row changes |
| ProductSpec.DeleteProductEffect | src/main/java/com/example/view_shoppingmall/service/ProductService.java:75-80 | Fails exactly for a missing key and then changes nothing. Otherwise exactly that row goes |
| ProductService.ProductService.constructor | src/main/java/com/example/view_shoppingmall/service/ProductService.java:16-19 | Starts with an empty table |
| ProductService.ProductService.CreateProduct | src/main/java/com/example/view_shoppingmall/service/ProductService.java:50-54 | The new table and DTO are those of `ProductSpec.CreateProduct` |
| ProductService.ProductService.UpdateProduct | src/main/java/com/example/view_shoppingmall/service/ProductService.java:58-71 | The setters applied to the loaded row give the table and result of `ProductSpec.UpdateProduct` |
| ProductService.ProductService.DeleteProduct | src/main/java/com/example/view_shoppingmall/service/ProductService.java:75-80 | The new table and result are those of `ProductSpec.DeleteProduct` |
| AuthSpec.FindByUsername | src/main/java/com/example/view_shoppingmall/controller/AuthController.java:41-42 | Finds only a stored user with that name. In a consistent table it finds one exactly when the name is taken |
| AuthSpec.SignupEffect | src/main/java/com/example/view_shoppingmall/controller/AuthController.java:58-83 | A taken username is reported first, then a taken email, and neither adds a user. The reply is CREATED exactly when both are free, and then exactly one user is added under a fresh key with the encoded password and role USER |
| AuthSpec.SignupConsistent | src/main/java/com/example/view_shoppingmall/controller/AuthController.java:58-83 | Sign-up keeps usernames and emails unique |
| AuthSpec.SignupThenFind | src/main/java/com/example/view_shoppingmall/controller/AuthController.java:73-79 | After a successful sign-up, the lookup by the new username returns the new user |
| AuthSpec.Login | src/main/java/com/example/view_shoppingmall/controller/AuthController.java:29-56 | Never throws. Every failure is the same 401 "Invalid username or password". It succeeds exactly when the credentials are accepted and the user row exists. Success carries the tokens minted for that username and that user's email and role |
| AuthSpec.RefreshToken | src/main/java/com/example/view_shoppingmall/controller/AuthController.java:85-99 | OK exactly for a present token that validates, and then both new tokens are minted for the username extracted from it. Otherwise the reply is 401 with no token at all |
| AuthSpec.CurrentUser | src/main/java/com/example/view_shoppingmall/controller/AuthController.java:101-123 | 401 "Not authenticated" for a missing, unauthenticated or anonymous principal. Otherwise it throws "User not found" exactly when no user has the principal's name. Or it replies OK with both tokens absent and the name, email and role of the stored user with that name |
| AuthController.AuthController.constructor | src/main/java/com/example/view_shoppingmall/controller/AuthController.java:22-27 | Starts with an empty, consistent user table |
| AuthController.AuthController.Signup | src/main/java/com/example/view_shoppingmall/controller/AuthController.java:58-83 | The new table and reply are those of `AuthSpec.Signup`; uniqueness is kept |
| Router.ScrollBehavior | frontend/src/router/index.js:76-87 | A saved position wins whenever present. Otherwise a non-empty hash gives a smooth scroll to that element. Otherwise the page scrolls smoothly to top 0 |
| Router.BeforeEachSpec | frontend/src/router/index.js:91-107 | Each outcome in both directions. A protected target while logged out redirects to Login with the target's full path. A guest-only target while logged in redirects to ProductList. Every other navigation proceeds |
| Router.RoutesWellFormed | frontend/src/router/index.js:13-70 | No route is both protected and guest-only, and route names are unique |
| Router.NoRedirectLoop | frontend/src/router/index.js:91-107 | The route a redirect leads to is allowed to proceed in the same login state |
| Router.ProtectedAfterLogout | frontend/src/router/index.js:95-98 | After the tokens are cleared, every protected route redirects to Login with the way back, and every other route proceeds |
| Router.GuestPagesAfterLogin | frontend/src/router/index.js:101-104 | After a non-empty access token is saved, the guest-only routes redirect to ProductList and every other route proceeds |
| AuthClient.SavedTokensEffect | frontend/src/services/authService.js:8-13 | The access token is always written. The refresh token is written only when truthy; otherwise the old one stays. Every other key is kept. Logged in afterwards exactly when the access token is non-empty |
| AuthClient.ClearedEffect | frontend/src/services/authService.js:25-29 | Removes the access token, refresh token and user keys and nothing else, so nobody is logged in afterwards. Clearing is idempotent |
| AuthClient.RefreshSpec | frontend/src/services/authService.js:83-102 | With no stored refresh token it fails and changes nothing. It succeeds exactly when the server returns a new pair, and then saves that pair. With the corrected refresh, any rejection clears the store and logs out |
| AuthClient.AttachedHeaderSpec | frontend/src/services/authService.js:120-131 | The request carries `Bearer <token>` exactly when an access token is stored; otherwise its header is untouched |
| AuthClient.RefreshAsWrittenNeverSettles | frontend/src/services/authService.js:83-102 | As written, when a stored refresh token gets a 401, the refresh never settles at any depth of nesting |
| AuthClient.CorrectedRefreshSettles | frontend/src/services/authService.js:98-101 | The corrected refresh settles at once in that case, with the store cleared |
| AuthClient.RefreshAsWrittenAgrees | frontend/src/services/authService.js:83-102 | Whenever the refresh POST is not answered with 401, the code as written and the corrected refresh give the same outcome |
| AuthClient.TokenStore.SaveTokens | frontend/src/services/authService.js:8-13 | The new storage is `SavedTokens` of the old one |
| AuthClient.TokenStore.RemoveTokens | frontend/src/services/authService.js:25-29 | The new storage is `Cleared` of the old one |
| AuthClient.TokenStore.Logout | frontend/src/services/authService.js:105-107 | Clears the store and leaves the client logged out |
| AuthClient.TokenStore.RefreshAccessToken | frontend/src/services/authService.js:83-102 | The success flag and the new storage are those of the corrected `Refresh` |
| AuthClient.TokenStore.AttachToken | frontend/src/services/authService.js:120-131 | Sets the header to `AttachedHeader` of the stored token and leaves the retry mark alone |
| AuthClient.TokenStore.Send | frontend/src/services/authService.js:134-151 | A request is sent at most twice. A marked request, or one whose first answer is not 401, is sent once: its status is that answer and the store is untouched. An unmarked request answered 401 leaves the store as the refresh leaves it, so with the corrected refresh a failed refresh clears the tokens. It is sent a second time exactly when the refresh succeeds, with `Bearer <new token>` as its header, and its status is then the second answer; when it is sent once its status is the first answer, so a failed refresh yields the first 401. The request ends marked exactly when it was marked before or its first answer was 401. Its header is the one the request interceptor set for the last send: `AttachedHeader` of the old store after one send, and of the refreshed store over `Bearer <new token>` after two |

## Left out

- Transactions, and the race between a uniqueness check and the insert it
  guards. Each service call is one atomic step. The database's uniqueness
  constraints are not modelled.
- Spring pagination internals. A page is a slice of the full ordered list.
  The `Page` metadata (totals, page count) is not modelled.
- Floating point. The average rating is exact integer tenths, so the
  rounding of `double` arithmetic is not modelled.
- The HTTP controllers `QnaController`, `ReviewController`,
  `WishlistController` and `ProductController`, which only map exceptions
  and a missing principal to status codes. The services take the caller's
  id directly.
- DTO classes and `WishlistItemDTO.fromEntity`, which only copy fields.
  Query results are keys (questions, reviews) or DTOs (products).
- `getReviewsByProductId` is modelled as its key list `ReviewSpec.ReviewsOf`;
  the DTO conversion of each row is not modelled.
- Wishlist rows have no id or `createdAt` in the model. `getUserWishlist`
  comes from `findByUserId`, which promises no order, so the model returns
  a set of product keys.
- ProductSpec.AllProducts: `findAll()` promises no order. The model lists
  the products in descending key order, and only their membership and
  uniqueness are stated.
- ProductSpec.ProductsByCategory: `findByCategory` promises no order. The
  model lists in descending key order, and only membership and uniqueness
  are stated.
- ProductSpec.SearchProducts: `findByNameContaining` promises no order. The
  model lists in descending key order, and only membership and uniqueness
  are stated.
- `deleteProduct` removes the product row only. The reviews and wishlist
  rows that still point to it, and foreign-key behaviour, are not modelled.
- JWT signing, expiry and parsing, password hashing and the authentication
  manager are function parameters. The resolver round-trip, expiry instants
  and the freshness of rotated tokens therefore cannot be stated.
- AuthSpec.Login: `generateToken` receives the `Authentication` object in the
  code. The model applies it to the login username, which is the name that
  object carries.
- The security context: `getCurrentUser` receives the `Authentication` as a
  parameter, and `login` does not model storing it in the context.
- The exact JSON field names of `AuthResponse` and `TokenRefreshResponse`.
- In authService.js, the `login`, `signup` and `getCurrentUser` wrappers,
  and `saveUser`/`getUser` with their JSON encoding of the user object.
  `login` is modelled only through `SaveTokens`.
- localStorage's conversion of non-string values: `SaveTokens` takes the
  access token as the string that is stored.
- Path matching of route patterns such as `/products/:id`. The guard
  receives the matched route's meta. Component loading is not modelled.
- The frontend API wrappers (`api.js`, `productService.js`,
  `qnaService.js`, `reviewService.js`, `wishlistService.js`), which are thin
  HTTP calls.

## Findings

| source | as written | input that shows it | evidently intended | confidence | as-written member | corrected member |
|---|---|---|---|---|---|---|
| frontend/src/services/authService.js:83-102 | The refresh POST goes through the same axios client as every other request. A 401 on it therefore reaches the response interceptor as a fresh, unmarked request, which calls `refreshAccessToken` again with the same stored token. | A stored refresh token the server rejects with 401 (expired or forged), followed by any request that gets 401 | A failed refresh settles once and clears the stored tokens, as the `catch` block intends | not executed; medium, since it depends on the refresh endpoint answering an invalid token with 401, which `AuthController.refreshToken` does | AuthClient.RefreshAsWrittenNeverSettles | AuthClient.CorrectedRefreshSettles |
