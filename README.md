# Accounting server: request handling, modelled in Dafny

The server in `src/createServer.js` is a small expense-accounting REST
service. It has three tables (users, expenses, categories) and one route
handler per CRUD operation on each table. `GET /expenses` also filters by
user, category list and date range, and pages its results with
`limit`/`offset`. This project models the handlers over an in-memory store
and proves what each one answers and how it changes the store.

Modules:

- `JsValues` (`js_values.dfy`): JSON values as a handler sees them
  (`Undefined` marks an absent field), JavaScript truthiness, and
  `String.prototype.trim` and `split`. `Number(...)` and `new Date(...)` are
  kept abstract, as a `Runtime` of two partial parsers: `None` stands for NaN
  or an invalid date.
- `Records` (`records.dfy`): the three record types, response bodies and
  statuses, the name guard, the row POST /expenses inserts, and the partial
  merge of PATCH /expenses/:id. The merge is modelled both as the `forEach`
  loop and as a reference function.
- `Tables` (`tables.dfy`): what a `findAll` returns: ids in ascending order,
  selection by a predicate, and OFFSET/LIMIT.
- `ExpenseQuery` (`expense_query.dfy`): the filter builder of GET /expenses.
  It fills a `Where` object step by step and is proved to agree with a
  reference predicate `Selects`, written directly from the query. The
  category list parser and the listing are also here.
- `Server` (`server.dfy`): the class `Store` holds the three tables as maps
  and three id counters. It has one method per route handler, plus a few
  methods that chain two requests. The class invariant `Valid` says:
  - every row sits under its own id;
  - every id is below its table's counter;
  - user names pass the name guard;
  - category names are trimmed and unique.

## Model

| member | source | states |
|---|---|---|
| JsValues.TrimIsEmptyIffBlank | src/createServer.js:48 | `name.trim() === ''` holds exactly when every character of the name is JavaScript whitespace |
| JsValues.TrimIdempotent | src/createServer.js:349 | a trimmed name has no whitespace at either end, and trimming it again changes nothing |
| JsValues.TrimStart | src/createServer.js:160 | leading trim never lengthens the string, and what it keeps does not start with whitespace |
| JsValues.TrimStartDropsWhitespace | src/createServer.js:160 | leading trim keeps a suffix of the string, and everything it drops is whitespace |
| JsValues.TrimEnd | src/createServer.js:160 | trailing trim never lengthens the string, and what it keeps does not end with whitespace |
| JsValues.TrimEndDropsWhitespace | src/createServer.js:160 | trailing trim keeps a prefix of the string, and everything it drops is whitespace |
| JsValues.TrimSlice | src/createServer.js:48 | `trim()` returns the slice of the string between a run of leading and a run of trailing whitespace |
| JsValues.Split | src/createServer.js:159 | `split(',')` yields at least one piece and no piece contains a comma |
| JsValues.JoinSplit | src/createServer.js:159 | joining the pieces of `split` with the separator gives back the original string |
| JsValues.SplitJoin | src/createServer.js:159 | splitting a join of separator-free pieces gives back those pieces |
| Records.ValidNameIff | src/createServer.js:48 | the name guard `ValidName` (a string whose trim is not empty, as at lines 48, 115-118, 345 and 393-396) accepts exactly the strings that hold a non-whitespace character |
| Records.RequiredGuardAsymmetry | src/createServer.js:216 | from an input that passes the required-field guard, changing `userId` or `amount` makes it fail exactly when the new value is undefined, and changing `spentAt` or `title` makes it fail exactly when the new value is falsy |
| Records.NewExpenseStored | src/createServer.js:232-239 | the inserted row has the new id and the parsed user id, carries `spentAt`, `title` and `amount` as sent, and `category` when present; it carries `note` as sent exactly when `note` is truthy (or null, which the column holds either way), and its note is truthy exactly when the sent one is |
| Records.WithColumn | src/createServer.js:318 | assigning one column of an expense changes that column only, and never the id or user |
| Records.ApplyUpdates | src/createServer.js:308-320 | the `forEach` over the update keys produces exactly the merge: absent fields keep their value, present ones (null included) overwrite |
| Records.MergedColumns | src/createServer.js:316-320 | field by field, the merge keeps a column the patch leaves undefined and takes the patch's value otherwise; id and userId are untouched |
| Records.MergedIdempotent | src/createServer.js:316-320 | applying the same patch twice has the effect of applying it once |
| Records.MergedNothing | src/createServer.js:316-320 | a patch with every field absent leaves the expense unchanged |
| Records.MergedTwice | src/createServer.js:316-320 | after two patches, a field set by the second holds the second's value |
| Tables.IdsInRange | src/createServer.js:196 | the table's ids in a range, strictly ascending, each one a key, and every key in the range present |
| Tables.SelectIds | src/createServer.js:194-196 | the selected ids are exactly those of the input whose rows satisfy the predicate, in ascending order when the input ids are |
| Tables.SelectIdsAgree | src/createServer.js:194-196 | selection depends only on the predicate's values on the rows |
| Tables.Paginate | src/createServer.js:197-202 | OFFSET/LIMIT yields the run of the listing starting at the offset, as long as the limit allows, and empty past the end |
| ExpenseQuery.DropEmpty | src/createServer.js:161 | `filter(Boolean)` keeps exactly the non-empty pieces |
| ExpenseQuery.CategoryEntriesClean | src/createServer.js:155-162 | every entry parsed from a `categories` string is a non-empty, trimmed string with no comma |
| ExpenseQuery.CategoryPiecesKept | src/createServer.js:155-162 | every comma-separated piece that is not blank appears, trimmed, in the category list |
| ExpenseQuery.CategoryListIff | src/createServer.js:155-162 | a string `categories` lists a category exactly when some comma-separated piece is not blank and trims to it |
| ExpenseQuery.BlankHasNoCategories | src/createServer.js:155-162 | a blank `categories` string yields an empty list, so no category filter |
| ExpenseQuery.BuildWhere | src/createServer.js:145-192 | 400 from `sendStatus` (status text only) for a `userId` that does not parse; otherwise 400 "Invalid date in from/to" for a truthy bad `from`/`to`; otherwise the built `where` matches an expense exactly when the reference predicate selects it (user equality, category membership, inclusive date bounds) |
| ExpenseQuery.NoFiltersSelectAll | src/createServer.js:145-192 | with no user, no `from`/`to`, and `categories` absent or a blank string, every expense is selected |
| ExpenseQuery.IgnoredParameters | src/createServer.js:145-170 | a `userId` that is null, undefined or empty (line 147) filters nothing, and a falsy `from` or `to` is neither validated (line 168) nor a bound |
| ExpenseQuery.UserFilterExact | src/createServer.js:145-176 | with only a `userId` that parses, an expense is selected exactly when its user id equals the parsed number |
| ExpenseQuery.DateRangeInclusive | src/createServer.js:164-192 | with only valid `from` and `to`, an expense is selected exactly when its `spentAt` is not NULL and parses to a time between them, both ends included |
| ExpenseQuery.NullDateNeverInRange | src/createServer.js:182-194 | a row whose `spentAt` is NULL (PATCH may store one, lines 317-318) is left out whenever `from` or `to` sets a bound, as the SQL comparison with NULL is never true |
| ExpenseQuery.EmptyWhereMatchesAll | src/createServer.js:172-195 | the empty `where` object (no filter set) matches every expense |
| ExpenseQuery.PageParams | src/createServer.js:197-202 | a page starts at the parsed `offset` when it is truthy and parses, else at 0; it runs to the end of the listing when `limit` is falsy or does not parse, and otherwise is as long as the parsed limit allows; each element is the listing's element at start plus its position |
| ExpenseQuery.ListingCorrect | src/createServer.js:194-203 | the listing holds exactly the stored rows the query selects, each once, by strictly ascending id |
| Tables.PaginateWithin | src/createServer.js:197-202 | a page holds only rows of the listing, and with no offset and no limit it is the whole listing |
| ExpenseQuery.PageOfListing | src/createServer.js:194-205 | the page sent holds only selected stored rows by ascending id; with no `limit` and no `offset` it holds all of them |
| ExpenseQuery.FindAllIsListing | src/createServer.js:194-203 | the datastore's rows for the built `where` object are the listing of the reference predicate |
| Server.TidyIffTrimmedValid | src/createServer.js:345-349 | a stored category name is exactly a trim of a name that passes the guard |
| Server.AddCategoryKeeps | src/createServer.js:349-356 | adding a tidy category whose name no other category has keeps ids keyed and names unique |
| Server.ReplaceCategoryKeeps | src/createServer.js:406-416 | renaming a category to a tidy name no other category has keeps ids keyed and names unique |
| Tables.RowsInRange | src/createServer.js:35 | when every key lies in a range, the rows at the ids of that range are exactly the table's rows |
| Server.AllUsersListed | src/createServer.js:35 | the users a `findAll` lists are every stored user, each once |
| Server.AllCategoriesListed | src/createServer.js:333 | the categories a `findAll` lists are every stored category, each once |
| Server.Store.constructor | src/createServer.js:12-31 | the store starts empty and with its invariant |
| Server.Store.ListUsers | src/createServer.js:33-42 | 200 with every stored user, each once |
| Server.Store.CreateUser | src/createServer.js:44-59 | 400 from `sendStatus` (status text only) and no change for a name that fails the guard; otherwise 201 and exactly one user added under a fresh id, name stored as sent |
| Server.Store.GetUser | src/createServer.js:61-80 | 400 for an id that does not parse, 404 "User not found" for an id with no user, otherwise 200 with the user |
| Server.Store.DeleteUser | src/createServer.js:82-103 | 400 and 404 as for GET, with no change; otherwise 204 and exactly that user removed |
| Server.Store.UpdateUser | src/createServer.js:105-139 | 400 for a bad id; 400 for a present name that fails the guard, before the existence check; 404; otherwise 200 with the name, when present, replacing the stored one as sent |
| Server.Store.ListExpenses | src/createServer.js:141-210 | the two 400 cases of the filter builder; 500 "Error fetching expenses" when the datastore refuses a negative limit or offset; otherwise 200 with the page of the listing |
| Server.Store.CreateExpense | src/createServer.js:212-248 | 400 with no change when `userId` or `amount` is absent, `spentAt` or `title` is falsy, `userId` does not parse, or no user has it; otherwise 201 and one expense added under a fresh id with the parsed user id, `category` stored as null when absent and `note` only when truthy |
| Server.Store.GetExpense | src/createServer.js:250-269 | 400 for an id that does not parse, 404 from `sendStatus` (status text only) for a missing expense, otherwise 200 with the expense |
| Server.Store.DeleteExpense | src/createServer.js:271-291 | 400 and 404 as for GET, with no change; otherwise 204 and exactly that expense removed |
| Server.Store.UpdateExpense | src/createServer.js:293-328 | 400 for a bad id, 404 for a missing expense, no change in either; otherwise 200 with the merge of the patch into the row, stored in its place |
| Server.Store.ListCategories | src/createServer.js:331-339 | 200 with every stored category, each once |
| Server.Store.CreateCategory | src/createServer.js:341-360 | 400 from `sendStatus` (status text only) for a name that fails the guard; 400 "Category name already exists" when a category has the trimmed name; neither changes anything; otherwise 201 and one category added under a fresh id with the trimmed name |
| Server.Store.GetCategory | src/createServer.js:362-381 | 400 for an id that does not parse, 404 "Category not found" for a missing category, otherwise 200 with the category |
| Server.Store.UpdateCategory | src/createServer.js:383-421 | 400 for a bad id; 400 for a present name that fails the guard, before the existence check; 404; 400 "Category name already exists" when another category has the trimmed name; otherwise 200 with the trimmed name, when present, replacing the stored one |
| Server.Store.DeleteCategory | src/createServer.js:423-443 | 400 and 404 as for GET, with no change; otherwise 204 and exactly that category removed |
| Server.Store.DeleteThenGetUser | src/createServer.js:82-103 | after a DELETE that answered 204, GET on the same id answers 404 "User not found" |
| Server.Store.DeleteThenGetExpense | src/createServer.js:271-291 | after a DELETE that answered 204, GET on the same id answers 404 |
| Server.Store.DeleteThenGetCategory | src/createServer.js:423-443 | after a DELETE that answered 204, GET on the same id answers 404 "Category not found" |
| Server.Store.CreateThenGetUser | src/createServer.js:44-80 | POST answers 201 exactly when the name passes the guard, and GET on the new id returns the created user |
| Server.Store.CreateThenGetExpense | src/createServer.js:212-269 | after a 201 from POST, GET on the new id returns the created expense |
| Server.Store.CreateCategoryTwice | src/createServer.js:341-381 | after a 201 from POST, GET on the new id returns the created category, and a second POST of the same name answers 400 "Category name already exists" |

## Left out

- Express setup, CORS, static files, JSON body parsing and `app.listen` (src/createServer.js:13-18, src/index.js) are HTTP plumbing. Each handler takes the destructured request fields and returns status and body.
- Database connection, `sequelize.authenticate`/`sync` and `process.exit` (src/createServer.js:21-31) are I/O and process control. The constructor starts from an empty store.
- src/createDatabase.js is not part of this model: it is database provisioning only.
- The model files (`models/*.model.js`) and `db.js` are not part of this model. Column types, `allowNull` constraints and any validation Sequelize would add from them are not modelled. Any JSON value is stored as sent.
- Generic 500 responses from datastore failures, and `console.error`. The one exception is a negative `limit`/`offset`, which the database refuses; the model answers that with the handler's 500 message.
- `Number(...)` and `new Date(...)` are abstract partial parsers (`Runtime`). Their exact semantics are not modelled: floats, `Number('')` being 0, arrays coerced to numbers, and the ISO date grammar. Numbers in `JsValue` are integers, so fractional amounts and float ids are outside the model.
- Comparing `spentAt` against `from`/`to` is modelled through the date parser: a row's `spentAt` is compared as a parsed time value, and a NULL `spentAt` satisfies no bound. The datastore's own column comparison and time zone handling are not modelled.
- `NoBody` stands for the answers of `res.sendStatus(...)`. Express sends the status text ("Bad Request", "Not Found") as a plain-text body there; that text is determined by the status and is not modelled.
- Server.Store.ListUsers: contents only, not order. The source calls `findAll` with no ORDER BY, so no order is specified for GET /users. The model happens to list by ascending id.
- Server.Store.ListCategories: contents only, not order, for the same reason.
- Async/await and concurrent requests: handlers run one at a time, as if the datastore serialised writes. Races between duplicate category names are not modelled.
- Auto-increment ids are a counter that advances only on a successful insert. Sequence gaps left by a failed insert are not modelled.
- Sequelize instances mutated in place (`user.name = …`, `foundExpense[key] = …`, then `save()`) are modelled as computing the new record value and storing it in the table map. A handler's JSON response is the stored record.
- The unique constraint on category names is modelled as a check against the other stored names, made before the write. SQL generation is not modelled.
- Deleting a user or category leaves the expenses that refer to them, as the handlers do. Foreign-key behaviour of the database schema is not modelled.
