# Flavour Fusion recipe server: the request-decision core in Dafny

The server is an Express application over MongoDB. It has two routers:

- `routes/user_route.js` handles `POST /register` and `POST /login`.
- `routes/recipe_route.js` handles `GET /`, `GET /:id` and `POST /` on recipes.

This project models what each handler decides. For every request body and every state of the collection, the model fixes three things: the ordered checks, the response (status and JSON body), and the change to the collection.

## Modules

| file | module | what it holds |
|---|---|---|
| `options.dfy` | `Options` | `Option` |
| `js_strings.dfy` | `JsStrings` | The JavaScript string operations the handlers call: `trim` (with the ECMAScript white-space set), `toLowerCase` on ASCII letters, `padStart`, and `String(n)` for integers. Each has its partner: a slice characterisation, fixed points, case-insensitive equality, and a decimal reader. |
| `js_values.dfy` | `JsValues` | `JsVal`, a parsed JSON body value. It comes with JavaScript truthiness and the string conversion `RegExp.prototype.test` applies to its argument. |
| `mongo.dfy` | `Mongo` | `Document<T>`, `findOne` as `FindOne`, and a `Collection<T>` class whose `InsertOne` appends under a fresh identifier. |
| `user_route.dfy` | `UserRoute` | The e-mail regular expression and its meaning, the password test, `/register`, and `/login`. |
| `recipe_route.dfy` | `RecipeRoute` | `get_numeric_date`, listing, lookup by identifier, and creation. |

## How state changes are modelled

Registration and recipe creation each insert into a collection. Each is a `method` on a `Collection<T>` object: it `modifies` that collection and calls `InsertOne`. Its postcondition ties the response and the new documents to a pure function of the old documents (`RegisterOutcome`, `CreateOutcome`). Lemmas about those functions state what the handler promises.

Login, listing and lookup only read. They are functions of the collection's documents.

None of the handlers' calls into other libraries are modelled internally. Each becomes a parameter:

- bcrypt is a pair of function values, `hash(password, rounds, salt)` and `compare(password, hash)`. The one property the handlers rely on is the `Sound` predicate: a password matches every hash made from it. It is a precondition of the lemma that needs it.
- `ObjectId.isValid` and `new ObjectId(id)` are the pair of functions in `ObjectIdCodec`.
- `new Date()` is a `LocalDate` argument.
- "A call inside the `try` block throws" is the boolean `storeFails`.

## Behaviour modelled as the code has it

- **Non-string e-mail at registration or login.** `is_valid_email` converts its argument to a string before testing it. So an array such as `["a@b.co"]` passes the test (its string form is `a@b.co`). Then `email.toLowerCase()` throws inside the `try` block, and the handler answers 500. `ValidEmailIsStringOrArray` shows that strings and arrays are the only truthy values that pass the test.
- **Non-string text field in recipe creation.** A text field that is present but not a string (a number, say) passes the presence check. `.trim()` then throws outside the `try` block, and the handler sends no answer of its own. The model's outcome for this is `Unhandled`, and nothing is stored.
  - The `.trim()` calls at `routes/recipe_route.js:96-104` sit before the `try` block that starts at line 106, so a throw there is not mapped to a response, and the field is never stored.
- **Routers not mounted.** `index.js` serves only `GET /`, and neither router is mounted. The handlers are modelled with the paths the routers themselves define.

## Model

| member | source | states |
|---|---|---|
| JsStrings.Trim | routes/recipe_route.js:97-102 | `trim` returns a contiguous part of its argument with no white space on either end. Everything it removed from the front and back is white space. |
| JsStrings.TrimFixedPoint | routes/recipe_route.js:97-102 | `trim` leaves a string unchanged exactly when the string has no outer white space, so trimming twice is trimming once. |
| JsStrings.TrimEmptyIffAllWhiteSpace | routes/recipe_route.js:97-102 | `trim` yields the empty string exactly for strings made only of white space. |
| JsStrings.Lower | routes/user_route.js:46-48 | `toLowerCase` keeps the length, leaves no capital letter, and changes only the case of letters. |
| JsStrings.LowerIsLowerCase | routes/user_route.js:46-48 | `toLowerCase` keeps the length, yields a string without capitals, is idempotent, and leaves lower-case strings alone. |
| JsStrings.LowerEqualIffEqualIgnoringCase | routes/user_route.js:46-48 | Two e-mails have the same lower-case form exactly when they differ only in letter case. |
| JsStrings.PadStart | routes/recipe_route.js:19-20 | `padStart(2, "0")` puts fill characters in front until the width is reached. The original string ends the result, and a string already wide enough is unchanged. |
| JsStrings.NatToDecimal | routes/recipe_route.js:19-21 | `String(n)` of a non-negative integer is one or more digits, with no leading zero except for 0 itself. |
| JsStrings.DecimalRoundTrip | routes/recipe_route.js:19-21 | Reading back the digits of `String(n)` gives `n`. |
| JsStrings.NumberRoundTrip | routes/recipe_route.js:19-21 | `String(n)` of any integer, negative ones included, parses back to `n`. |
| JsStrings.ParseNegative | routes/recipe_route.js:19-21 | A minus sign followed by digits reads as the negated value of those digits. |
| JsStrings.ParseDigits | routes/recipe_route.js:19-21 | A run of digits reads as its decimal value. |
| JsStrings.DecimalLength | routes/recipe_route.js:19-21 | Numbers below 10 take one digit, below 100 two, and 1000 to 9999 four. |
| JsStrings.NumberToString | routes/recipe_route.js:19-21 | `String(n)` is at least one character, ends with a digit, and starts with a digit or a minus sign. |
| JsValues.Truthy | routes/user_route.js:23 | `!v` holds exactly for `undefined`, `null`, `false`, `0` and the empty string; every array and object is truthy. |
| JsValues.ToJsString | routes/user_route.js:12 | The string a regular expression test sees: a string is itself, an empty array is the empty string, and an array holding one string is that string. |
| JsValues.ScalarStringShape | routes/user_route.js:12 | The string form of `undefined`, `null`, a boolean, a number or an object either has no `@` or contains a space. |
| Mongo.FirstMatch | routes/user_route.js:46-48 | Gives the position of the first document the filter accepts; every earlier document is rejected. |
| Mongo.FindOne | routes/recipe_route.js:49 | `findOne` returns nothing exactly when no document matches the filter. Otherwise it returns a stored document that matches. |
| Mongo.Collection.InsertOne | routes/recipe_route.js:108 | `insertOne` appends exactly one document. Its identifier is new to the collection and is returned as `insertedId`. Identifiers stay unique. |
| UserRoute.IsValidEmail | routes/user_route.js:12 | `is_valid_email` holds exactly when the string form of its argument is in the language of the e-mail regular expression. |
| UserRoute.IsStrongPassword | routes/user_route.js:14-15 | A strong password is a non-empty string, so it is also present for the presence check and for login's non-empty check. |
| UserRoute.EmailRegexMeaning | routes/user_route.js:12 | The e-mail test accepts exactly the language of `/^[^\s@]+@[^\s@]+\.[^\s@]+$/`: three runs of characters that are neither white space nor `@`, joined by `@` and then `.`. |
| UserRoute.EmailTestSound | routes/user_route.js:12 | Every string the test accepts is in the regular expression's language. |
| UserRoute.EmailTestComplete | routes/user_route.js:12 | Every string in the regular expression's language passes the test. |
| UserRoute.ValidEmailIsStringOrArray | routes/user_route.js:12 | A truthy value that passes `is_valid_email` is a string or an array. |
| UserRoute.EmailTestIgnoresCase | routes/user_route.js:12 | Changing letter case does not change whether an e-mail passes the test. |
| UserRoute.RegisterValidation | routes/user_route.js:22-37 | The checks run in the source's order: each of the four fields present (400), e-mail format (400), password of at least 9 characters and a string (400). Each rejection happens exactly when every earlier check passed and this one fails. |
| UserRoute.NewUser | routes/user_route.js:58-66 | The stored user has the e-mail in lower case and otherwise equal to the one sent, the bcrypt hash of the password with cost 10, the names as sent, the placeholder picture and `admin` false. |
| UserRoute.RegisterOutcome | routes/user_route.js:18-80 | The answer and the new user list of one registration. Its properties are stated by `RegisterEffect`, `RegisterMissingField` and `RegisterRejections`. |
| UserRoute.RegisterMissingField | routes/user_route.js:22-25 | A falsy field gets "all fields are required" and stores nothing, whatever the other fields hold. |
| UserRoute.RegisterRejections | routes/user_route.js:22-52 | A failed check is answered as that check's 400. A throwing call or a non-string e-mail gets 500. An e-mail whose lower-case form a stored user has gets 409. None of these stores anything. |
| UserRoute.RegisterEffect | routes/user_route.js:39-79 | Registration succeeds (201, new identifier) exactly when validation passes, nothing throws, the e-mail is a string and no stored user has its lower-case form. On success it appends one user with the lower-cased e-mail, the bcrypt hash with cost 10, the names as sent, the placeholder picture and `admin` false. Otherwise the collection is untouched. |
| UserRoute.RegisterKeepsEmailsNormalised | routes/user_route.js:45-66 | If stored e-mails are lower-case and pairwise distinct before registration, they still are after it. |
| UserRoute.CaseVariantRegistrationRejected | routes/user_route.js:45-52 | After a successful registration, a second one whose e-mail differs only in letter case gets 409 and stores nothing. |
| UserRoute.Register | routes/user_route.js:18-80 | The handler run against a collection: its answer and the new documents are `RegisterOutcome` of the old ones. The identifier counter advances only on success. The e-mail invariant is preserved. |
| UserRoute.LoginValidation | routes/user_route.js:87-100 | The checks in order: both fields present (400), e-mail format (400), password a non-empty string (400). Each fails exactly when every earlier check passed and it fails. |
| UserRoute.Login | routes/user_route.js:83-132 | A failed check gets that check's 400. After the checks, a throwing call or a non-string e-mail gets 500. Success is 200 with the identifier of a stored user whose e-mail is the lower-cased input and whose hash bcrypt accepts for the password. Every other failure is one of the three 400s, the 500 or the single 401. |
| UserRoute.LoginSucceedsForMatchingUser | routes/user_route.js:108-126 | The converse: when stored e-mails are lower-case and pairwise distinct, a valid body whose e-mail and password match a stored user logs in that user. |
| UserRoute.LoginHidesWhichCheckFailed | routes/user_route.js:113-120 | An unknown e-mail and a wrong password get the identical 401 answer. |
| UserRoute.RegisteredUserCanLogIn | routes/user_route.js:108-126 | After a successful registration, logging in with the same password answers 200 with the new identifier, whatever the letter case of the e-mail. This assumes bcrypt is sound. |
| RecipeRoute.TwoDigits | routes/recipe_route.js:19-20 | `String(n).padStart(2, "0")`. Its properties are stated by `TwoDigitsShape` and `TwoDigitsValue`. |
| RecipeRoute.TwoDigitsShape | routes/recipe_route.js:19-20 | A day or month is written with exactly two digits. |
| RecipeRoute.TwoDigitsValue | routes/recipe_route.js:19-20 | Those two digits read back as the number. Numbers below 10 get a leading `0`. |
| RecipeRoute.NumericDate | routes/recipe_route.js:17-24 | `get_numeric_date` for a given local date. Its properties are stated by `NumericDateLayout`, `NumericDateRoundTrip` and `NumericDateIsClean`. |
| RecipeRoute.NumericDateLayout | routes/recipe_route.js:17-24 | The date reads `dd/mm/` then the year. The day and the 1-based month are recovered from their digits. A four-digit year gives ten characters. |
| RecipeRoute.NumericDateRoundTrip | routes/recipe_route.js:17-24 | Parsing the written date gives the day, the 0-based month index and the full year back. |
| RecipeRoute.NumericDateIsClean | routes/recipe_route.js:17-24 | The date stamp has no white space on either end. |
| RecipeRoute.List | routes/recipe_route.js:27-36 | The listing is 200 with every stored recipe in collection order, or the 500 "failed to fetch recipes" answer when the read throws. |
| RecipeRoute.GetById | routes/recipe_route.js:39-59 | A malformed identifier gets 400 "invalid recipe id" whatever the store holds. 404 comes exactly when the identifier is well formed, the read succeeds and no recipe has it. A well-formed identifier that a stored recipe has is found when the read succeeds. A found recipe is stored and has that identifier. A throwing read after a well-formed identifier gets 400 "failed to fetch recipe". |
| RecipeRoute.StoredRecipeFound | routes/recipe_route.js:47-53 | With unique identifiers, looking a stored recipe up by its own identifier returns exactly that recipe. |
| RecipeRoute.RecipeValidation | routes/recipe_route.js:73-93 | The checks in order: all six fields present (400), then ingredients an array of strings (400). Each fails exactly when the earlier check passed and it fails. |
| RecipeRoute.CreateRejections | routes/recipe_route.js:73-117 | A missing field is reported before the ingredients are looked at. After both checks pass, a text field that is not a string makes `.trim()` throw outside `try` (`Unhandled`), and a throwing insert gets 500. None of these stores anything. |
| RecipeRoute.IsArrayOfStrings | routes/recipe_route.js:86-89 | The ingredients check passes exactly for an array all of whose elements are strings. |
| RecipeRoute.TrimmedIngredients | routes/recipe_route.js:101 | The ingredients keep their number and order, and each one is trimmed. |
| RecipeRoute.NewRecipe | routes/recipe_route.js:96-104 | The recipe creation builds. Its properties are stated by `CreateEffect` and `NewRecipeIsClean`. |
| RecipeRoute.CreateOutcome | routes/recipe_route.js:62-118 | The answer and the new recipe list of one creation. Its properties are stated by `CreateEffect` and `CreateRejections`. |
| RecipeRoute.CreateEffect | routes/recipe_route.js:95-117 | Creation succeeds (201, new identifier) exactly when validation passes, the text fields are strings and the insert does not throw. On success it appends one recipe: each text field trimmed, each ingredient trimmed in order, and the given date as `dd/mm/yyyy`. Otherwise nothing is stored. |
| RecipeRoute.BlankTextStoredEmpty | routes/recipe_route.js:74-97 | A field of white space only is present for the check, yet it is stored as the empty string. |
| RecipeRoute.NewRecipeIsClean | routes/recipe_route.js:96-104 | Every string of a newly built recipe, each ingredient included, has no outer white space. |
| RecipeRoute.AppendKeepsClean | routes/recipe_route.js:108 | Appending a clean recipe to clean recipes keeps them all clean. |
| RecipeRoute.CreateKeepsRecipesClean | routes/recipe_route.js:96-108 | If every stored string has no outer white space before a creation, the same holds after it. |
| RecipeRoute.AppendedRecipeFound | routes/recipe_route.js:108 | A recipe appended under a fresh identifier is listed last, and looking that identifier up finds it. |
| RecipeRoute.CreatedRecipeIsListedAndFound | routes/recipe_route.js:108-112 | After a successful creation, the listing is the earlier recipes followed by the new one, and `GET /:id` with the returned identifier finds the new recipe. |
| RecipeRoute.Create | routes/recipe_route.js:62-118 | The handler run against a collection on a given date: its answer and the new documents are `CreateOutcome` of the old ones. The counter advances only on success. Stored strings stay free of outer white space. |

## Left out

- `db/db.js` (`connect_db`) and the module-level connection in `routes/recipe_route.js:11-14` are not modelled. Any failure of theirs inside a handler's `try` block is one case of `storeFails`.
- `index.js` (middleware, root route, listening on a port) is not modelled. It does not mount these routers.
- bcrypt's hashing and comparison are kept abstract as function parameters. Salt generation is an argument.
- `ObjectId.isValid`, the conversion of an identifier string, and identifier generation are not modelled. The database's identifiers are a counter, which stands in for uniqueness.
- `Date` and the server's time zone are not modelled: the local day, month index and full year are an argument.
- Asynchrony and concurrency are not modelled. Handlers run one at a time.
  - Two simultaneous registrations with the same e-mail could both pass `findOne` and both insert. `RegisterKeepsEmailsNormalised` holds only for serial handling.
- `console.error` logging is not modelled.
- The failure of individual calls inside a `try` block (connecting, `findOne`, `hash`, `compare`, `insertOne`) is not distinguished. All of them give the same answer, and a throwing insert stores nothing.
- JSON serialisation of the responses and of the stored documents is not modelled. A response is its status and body fields.
- Express's treatment of an exception thrown outside `try` (`Unhandled`) is not modelled.
- `JsStrings.Lower`: letter case is converted for ASCII letters only, not the full Unicode case mapping of `toLowerCase`.
- `UserRoute.IsStrongPassword`: lengths are counted in Unicode code points, not UTF-16 code units, so a password with characters outside the Basic Multilingual Plane is measured shorter than JavaScript measures it.
- `JsValues.ToJsString`: numbers are integers. Fractions, exponent notation, `NaN` and infinities of JavaScript numbers are not modelled, and number width is unbounded.
- `JsValues.JsVal`: object bodies keep only their entries. Their string form is always `[object Object]`.
