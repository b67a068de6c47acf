/** The route handlers of the accounting server over an in-memory store: the
    User, Expense and Category tables, each a map from id to row with the
    next id its auto-increment column will hand out. Each handler takes the
    parts of the request it destructures and returns the status and body it
    sends; the store changes only where the handler's datastore call would
    change it. */
module Server {
  import opened JsValues
  import opened Records
  import opened Tables
  import opened ExpenseQuery

  /** Every user sits under its own id, in `[1, next)`. */
  ghost predicate UsersKeyed(users: map<int, User>, next: int) {
    && 1 <= next
    && forall k :: k in users ==> users[k].id == k && 1 <= k < next
  }

  /** Every user name holds a character other than whitespace, that is,
      passes the name guard (`ValidNameIff`). */
  ghost predicate UserNamesValid(users: map<int, User>) {
    forall k :: k in users ==> !AllWhitespace(users[k].name)
  }

  /** Every expense sits under its own id, in `[1, next)`. */
  ghost predicate ExpensesKeyed(expenses: map<int, Expense>, next: int) {
    && 1 <= next
    && forall k :: k in expenses ==> expenses[k].id == k && 1 <= k < next
  }

  /** A name as POST and PATCH /categories store it: not empty, and no
      whitespace at either end. */
  predicate Tidy(name: string) {
    name != [] && !IsJsWhitespace(name[0]) && !IsJsWhitespace(name[|name| - 1])
  }

  /** A tidy name is exactly the trim of a name that passes the guard. */
  lemma TidyIffTrimmedValid(name: string)
    ensures Tidy(name) <==> ValidName(Str(name)) && Trim(name) == name
  {
    TrimIdempotent(name);
    if Tidy(name) {
      assert TrimStart(name) == name;
      assert TrimEnd(name) == name;
    }
  }

  /** What the guard lets through trims to a tidy name. */
  lemma TrimOfValidIsTidy(v: JsValue)
    requires ValidName(v)
    ensures Tidy(Trim(v.s))
  {
    TrimIdempotent(v.s);
  }

  /** Every category sits under its own id, in `[1, next)`, and its name is
      tidy. */
  ghost predicate CategoriesKeyed(categories: map<int, Category>, next: int) {
    && 1 <= next
    && forall k :: k in categories ==> categories[k].id == k && 1 <= k < next && Tidy(categories[k].name)
  }

  /** No two categories share a name (the unique constraint on `name`). */
  ghost predicate CategoryNamesUnique(categories: map<int, Category>) {
    forall j, k :: j in categories && k in categories && j != k ==> categories[j].name != categories[k].name
  }

  lemma AddUserKeeps(users: map<int, User>, next: int, u: User)
    requires UsersKeyed(users, next) && UserNamesValid(users) && u.id == next && ValidName(Str(u.name))
    ensures u.id !in users && UsersKeyed(users[u.id := u], next + 1) && UserNamesValid(users[u.id := u])
  {
    TrimIsEmptyIffBlank(u.name);
  }

  lemma ReplaceUserKeeps(users: map<int, User>, next: int, id: int, u: User)
    requires UsersKeyed(users, next) && UserNamesValid(users)
    requires id in users && u.id == users[id].id && !AllWhitespace(u.name)
    ensures UsersKeyed(users[id := u], next) && UserNamesValid(users[id := u])
  {
  }

  lemma RemoveUserKeeps(users: map<int, User>, next: int, id: int)
    requires UsersKeyed(users, next) && UserNamesValid(users)
    ensures UsersKeyed(users - {id}, next) && UserNamesValid(users - {id})
  {
  }

  /** The users under ids `[1, next)`, by ascending id, are every stored user, each once. */
  lemma AllUsersListed(users: map<int, User>, next: int)
    requires forall k :: k in users ==> users[k].id == k && 1 <= k < next
    ensures var rows := ValuesAt(users, IdsInRange(users, 1, next));
      && (forall u :: u in rows <==> u in users.Values)
      && (forall i, j :: 0 <= i < j < |rows| ==> rows[i].id < rows[j].id)
  {
    var ids := IdsInRange(users, 1, next);
    var rows := ValuesAt(users, ids);
    RowsInRange(users, 1, next);
    forall i, j | 0 <= i < j < |rows| ensures rows[i].id < rows[j].id {
      assert rows[i].id == ids[i] && rows[j].id == ids[j];
    }
  }

  /** The categories under ids `[1, next)`, by ascending id, are every stored category, each once. */
  lemma AllCategoriesListed(categories: map<int, Category>, next: int)
    requires forall k :: k in categories ==> categories[k].id == k && 1 <= k < next
    ensures var rows := ValuesAt(categories, IdsInRange(categories, 1, next));
      && (forall c :: c in rows <==> c in categories.Values)
      && (forall i, j :: 0 <= i < j < |rows| ==> rows[i].id < rows[j].id)
  {
    var ids := IdsInRange(categories, 1, next);
    var rows := ValuesAt(categories, ids);
    RowsInRange(categories, 1, next);
    forall i, j | 0 <= i < j < |rows| ensures rows[i].id < rows[j].id {
      assert rows[i].id == ids[i] && rows[j].id == ids[j];
    }
  }

  lemma AddExpenseKeeps(expenses: map<int, Expense>, next: int, e: Expense)
    requires ExpensesKeyed(expenses, next) && e.id == next
    ensures e.id !in expenses && ExpensesKeyed(expenses[e.id := e], next + 1)
  {
  }

  lemma ReplaceExpenseKeeps(expenses: map<int, Expense>, next: int, id: int, e: Expense)
    requires ExpensesKeyed(expenses, next) && id in expenses && e.id == expenses[id].id
    ensures ExpensesKeyed(expenses[id := e], next)
  {
  }

  lemma RemoveExpenseKeeps(expenses: map<int, Expense>, next: int, id: int)
    requires ExpensesKeyed(expenses, next)
    ensures ExpensesKeyed(expenses - {id}, next)
  {
  }

  lemma AddCategoryKeeps(categories: map<int, Category>, next: int, c: Category)
    requires CategoriesKeyed(categories, next) && CategoryNamesUnique(categories)
    requires c.id == next && Tidy(c.name)
    requires forall k :: k in categories ==> categories[k].name != c.name
    ensures c.id !in categories
    ensures CategoriesKeyed(categories[c.id := c], next + 1) && CategoryNamesUnique(categories[c.id := c])
  {
    ReplaceCategoryKeeps(categories, next, c.id, c);
    assert CategoriesKeyed(categories[c.id := c], next + 1);
  }

  lemma ReplaceCategoryKeeps(categories: map<int, Category>, next: int, id: int, c: Category)
    requires CategoriesKeyed(categories, next) && CategoryNamesUnique(categories)
    requires c.id == id && (id in categories || id == next) && Tidy(c.name)
    requires forall k :: k in categories && k != id ==> categories[k].name != c.name
    ensures CategoriesKeyed(categories[id := c], if id == next then next + 1 else next)
    ensures CategoryNamesUnique(categories[id := c])
  {
    var m := categories[id := c];
    forall j, k | j in m && k in m && j != k
      ensures m[j].name != m[k].name
    {
      if j != id && k != id {
        assert m[j] == categories[j] && m[k] == categories[k];
      }
    }
  }

  lemma RemoveCategoryKeeps(categories: map<int, Category>, next: int, id: int)
    requires CategoriesKeyed(categories, next) && CategoryNamesUnique(categories)
    ensures CategoriesKeyed(categories - {id}, next) && CategoryNamesUnique(categories - {id})
  {
  }

  class Store {
    /** `Number(...)` and `new Date(...)`. */
    const rt: Runtime

    var users: map<int, User>
    var expenses: map<int, Expense>
    var categories: map<int, Category>
    var nextUserId: int
    var nextExpenseId: int
    var nextCategoryId: int

    /** Every row sits under its own id, from 1 up to below the next id of
        its table; user names pass the name guard; category names pass it,
        are trimmed and are unique. Expenses may name users that no longer
        exist. */
    ghost predicate Valid()
      reads this
    {
      && UsersKeyed(users, nextUserId) && UserNamesValid(users)
      && ExpensesKeyed(expenses, nextExpenseId)
      && CategoriesKeyed(categories, nextCategoryId)
      && CategoryNamesUnique(categories)
    }

    constructor (rt: Runtime)
      ensures Valid() && this.rt == rt
      ensures users == map[] && expenses == map[] && categories == map[]
    {
      this.rt := rt;
      users, expenses, categories := map[], map[], map[];
      nextUserId, nextExpenseId, nextCategoryId := 1, 1, 1;
    }

    /** `Number(req.params.id)` for a path segment; `None` is NaN. */
    function ParseId(param: string): Option<int> {
      rt.toNumber(Str(param))
    }

    /** Some category other than `except` is called `name`: saving `name`
        would violate the unique constraint. */
    predicate NameTaken(name: string, except: Option<int>)
      reads this
    {
      exists k :: k in categories && Some(k) != except && categories[k].name == name
    }

    // ---------------------------------------------------------------- users

    /** GET /users: every user, each once (the order is not specified). */
    method ListUsers() returns (resp: Response)
      requires Valid()
      ensures resp.status == OK && resp.body.UserRows?
      ensures forall u :: u in resp.body.users <==> u in users.Values
      ensures forall i, j :: 0 <= i < j < |resp.body.users| ==> resp.body.users[i].id != resp.body.users[j].id
    {
      var rows := ValuesAt(users, IdsInRange(users, 1, nextUserId));
      AllUsersListed(users, nextUserId);
      resp := Response(OK, UserRows(rows));
    }

    /** POST /users: a name that fails the guard gets a bare `sendStatus` 400 and changes
        nothing; otherwise one user is added under a fresh id, with the name
        exactly as sent, and returned with 201. */
    method CreateUser(name: JsValue) returns (resp: Response)
      requires Valid()
      modifies this`users, this`nextUserId
      ensures Valid()
      ensures !ValidName(name) ==>
        resp == Response(BAD_REQUEST, NoBody) && users == old(users) && nextUserId == old(nextUserId)
      ensures ValidName(name) ==>
        var u := User(old(nextUserId), name.s);
        && u.id !in old(users)
        && resp == Response(CREATED, UserRow(u))
        && users == old(users)[u.id := u]
        && nextUserId == old(nextUserId) + 1
    {
      if !ValidName(name) {
        return Response(BAD_REQUEST, NoBody);
      }
      var u := User(nextUserId, name.s);
      AddUserKeeps(users, nextUserId, u);
      users, nextUserId := users[u.id := u], nextUserId + 1;
      resp := Response(CREATED, UserRow(u));
    }

    /** GET /users/:userId: 400 for an id that does not parse, 404 for an id
        with no user, otherwise the user. */
    method GetUser(param: string) returns (resp: Response)
      ensures ParseId(param).None? ==> resp == Response(BAD_REQUEST, NoBody)
      ensures ParseId(param).Some? && ParseId(param).value !in users ==>
        resp == Response(NOT_FOUND, Message("User not found"))
      ensures ParseId(param).Some? && ParseId(param).value in users ==>
        resp == Response(OK, UserRow(users[ParseId(param).value]))
    {
      var id := ParseId(param);
      if id.None? {
        return Response(BAD_REQUEST, NoBody);
      }
      if id.value !in users {
        return Response(NOT_FOUND, Message("User not found"));
      }
      resp := Response(OK, UserRow(users[id.value]));
    }

    /** DELETE /users/:userId: 400 and 404 as for GET, changing nothing;
        otherwise exactly that user is removed and 204 is sent. The user's
        expenses stay. */
    method DeleteUser(param: string) returns (resp: Response)
      requires Valid()
      modifies this`users
      ensures Valid()
      ensures ParseId(param).None? ==> resp == Response(BAD_REQUEST, NoBody) && users == old(users)
      ensures ParseId(param).Some? && ParseId(param).value !in old(users) ==>
        resp == Response(NOT_FOUND, Message("User not found")) && users == old(users)
      ensures ParseId(param).Some? && ParseId(param).value in old(users) ==>
        resp == Response(NO_CONTENT, NoBody) && users == old(users) - {ParseId(param).value}
    {
      var id := ParseId(param);
      if id.None? {
        return Response(BAD_REQUEST, NoBody);
      }
      if id.value !in users {
        return Response(NOT_FOUND, Message("User not found"));
      }
      RemoveUserKeeps(users, nextUserId, id.value);
      users := users - {id.value};
      resp := Response(NO_CONTENT, NoBody);
    }

    /** PATCH /users/:userId: 400 for a bad id, then 400 for a name that is
        present but fails the guard (whether or not the user exists), then 404;
        otherwise the name, when present, replaces the stored one as sent. */
    method UpdateUser(param: string, name: JsValue) returns (resp: Response)
      requires Valid()
      modifies this`users
      ensures Valid()
      ensures ParseId(param).None? ==> resp == Response(BAD_REQUEST, NoBody) && users == old(users)
      ensures ParseId(param).Some? && name != Undefined && !ValidName(name) ==>
        resp == Response(BAD_REQUEST, NoBody) && users == old(users)
      ensures ParseId(param).Some? && (name == Undefined || ValidName(name)) && ParseId(param).value !in old(users) ==>
        resp == Response(NOT_FOUND, Message("User not found")) && users == old(users)
      ensures ParseId(param).Some? && (name == Undefined || ValidName(name)) && ParseId(param).value in old(users) ==>
        var id := ParseId(param).value;
        var u := if name == Undefined then old(users)[id] else old(users)[id].(name := name.s);
        && resp == Response(OK, UserRow(u))
        && users == old(users)[id := u]
    {
      var id := ParseId(param);
      if id.None? {
        return Response(BAD_REQUEST, NoBody);
      }
      if name != Undefined && !ValidName(name) {
        return Response(BAD_REQUEST, NoBody);
      }
      if id.value !in users {
        return Response(NOT_FOUND, Message("User not found"));
      }
      var u := users[id.value];
      if name != Undefined {
        TrimIsEmptyIffBlank(name.s);
        u := u.(name := name.s);
      }
      ReplaceUserKeeps(users, nextUserId, id.value, u);
      users := users[id.value := u];
      resp := Response(OK, UserRow(u));
    }

    // ------------------------------------------------------------- expenses

    /** GET /expenses: a bare `sendStatus` 400 for a `userId` that does not parse, a 400
        with its message for a bad `from`/`to`, the datastore's refusal of a
        negative LIMIT or OFFSET as 500, and otherwise the window of the
        listing that `limit` and `offset` ask for (what that page holds is
        `PageOfListing`). */
    method ListExpenses(q: Query) returns (resp: Response)
      requires Valid()
      ensures BadUserFilter(rt, q) ==> resp == Response(BAD_REQUEST, NoBody)
      ensures !BadUserFilter(rt, q) && BadRange(rt, q) ==>
        resp == Response(BAD_REQUEST, Message("Invalid date in from/to"))
      ensures !BadUserFilter(rt, q) && !BadRange(rt, q) && NegativePage(rt, q) ==>
        resp == Response(SERVER_ERROR, Message("Error fetching expenses"))
      ensures !BadUserFilter(rt, q) && !BadRange(rt, q) && !NegativePage(rt, q) ==>
        resp == Response(OK, ExpenseRows(Paginate(Listing(rt, q, expenses, nextExpenseId), OffsetOf(rt, q), LimitOf(rt, q))))
    {
      var built := BuildWhere(rt, q);
      if built.Rejected? {
        return built.response;
      }
      if NegativePage(rt, q) {
        return Response(SERVER_ERROR, Message("Error fetching expenses"));
      }
      var rows := FindAll(rt, built.where, expenses, nextExpenseId);
      FindAllIsListing(rt, built.where, q, expenses, nextExpenseId);
      var page := Paginate(rows, OffsetOf(rt, q), LimitOf(rt, q));
      resp := Response(OK, ExpenseRows(page));
    }

    /** POST /expenses: a bare `sendStatus` 400 when `userId` or `amount` is absent, when
        `spentAt` or `title` is falsy, when `userId` does not parse or when no
        user has that id, changing nothing; otherwise one expense is added
        under a fresh id with the parsed user id, and returned with 201. */
    method CreateExpense(input: ExpenseInput) returns (resp: Response)
      requires Valid()
      modifies this`expenses, this`nextExpenseId
      ensures Valid()
      ensures MissingRequired(input) ==>
        resp == Response(BAD_REQUEST, NoBody) && expenses == old(expenses) && nextExpenseId == old(nextExpenseId)
      ensures !MissingRequired(input) && rt.toNumber(input.userId).None? ==>
        resp == Response(BAD_REQUEST, NoBody) && expenses == old(expenses) && nextExpenseId == old(nextExpenseId)
      ensures !MissingRequired(input) && rt.toNumber(input.userId).Some? && rt.toNumber(input.userId).value !in users ==>
        resp == Response(BAD_REQUEST, NoBody) && expenses == old(expenses) && nextExpenseId == old(nextExpenseId)
      ensures !MissingRequired(input) && rt.toNumber(input.userId).Some? && rt.toNumber(input.userId).value in users ==>
        var e := NewExpense(old(nextExpenseId), rt.toNumber(input.userId).value, input);
        && e.id !in old(expenses)
        && resp == Response(CREATED, ExpenseRow(e))
        && expenses == old(expenses)[e.id := e]
        && nextExpenseId == old(nextExpenseId) + 1
    {
      if MissingRequired(input) {
        return Response(BAD_REQUEST, NoBody);
      }
      var numericUserId := rt.toNumber(input.userId);
      if numericUserId.None? {
        return Response(BAD_REQUEST, NoBody);
      }
      if numericUserId.value !in users {
        return Response(BAD_REQUEST, NoBody);
      }
      var e := NewExpense(nextExpenseId, numericUserId.value, input);
      AddExpenseKeeps(expenses, nextExpenseId, e);
      expenses := expenses[e.id := e];
      nextExpenseId := nextExpenseId + 1;
      resp := Response(CREATED, ExpenseRow(e));
    }

    /** GET /expenses/:id: 400 for an id that does not parse, a bare `sendStatus` 404 for
        an id with no expense, otherwise the expense. */
    method GetExpense(param: string) returns (resp: Response)
      ensures ParseId(param).None? ==> resp == Response(BAD_REQUEST, NoBody)
      ensures ParseId(param).Some? && ParseId(param).value !in expenses ==> resp == Response(NOT_FOUND, NoBody)
      ensures ParseId(param).Some? && ParseId(param).value in expenses ==>
        resp == Response(OK, ExpenseRow(expenses[ParseId(param).value]))
    {
      var id := ParseId(param);
      if id.None? {
        return Response(BAD_REQUEST, NoBody);
      }
      if id.value !in expenses {
        return Response(NOT_FOUND, NoBody);
      }
      resp := Response(OK, ExpenseRow(expenses[id.value]));
    }

    /** DELETE /expenses/:id: 400 and 404 as for GET, changing nothing;
        otherwise exactly that expense is removed and 204 is sent. */
    method DeleteExpense(param: string) returns (resp: Response)
      requires Valid()
      modifies this`expenses
      ensures Valid()
      ensures ParseId(param).None? ==> resp == Response(BAD_REQUEST, NoBody) && expenses == old(expenses)
      ensures ParseId(param).Some? && ParseId(param).value !in old(expenses) ==>
        resp == Response(NOT_FOUND, NoBody) && expenses == old(expenses)
      ensures ParseId(param).Some? && ParseId(param).value in old(expenses) ==>
        resp == Response(NO_CONTENT, NoBody) && expenses == old(expenses) - {ParseId(param).value}
    {
      var id := ParseId(param);
      if id.None? {
        return Response(BAD_REQUEST, NoBody);
      }
      if id.value !in expenses {
        return Response(NOT_FOUND, NoBody);
      }
      RemoveExpenseKeeps(expenses, nextExpenseId, id.value);
      expenses := expenses - {id.value};
      resp := Response(NO_CONTENT, NoBody);
    }

    /** PATCH /expenses/:id: 400 for a bad id, a bare `sendStatus` 404 for a missing
        expense; otherwise the patch is merged into the row with no check of
        its values, and the merged row is returned. */
    method UpdateExpense(param: string, patch: ExpensePatch) returns (resp: Response)
      requires Valid()
      modifies this`expenses
      ensures Valid()
      ensures ParseId(param).None? ==> resp == Response(BAD_REQUEST, NoBody) && expenses == old(expenses)
      ensures ParseId(param).Some? && ParseId(param).value !in old(expenses) ==>
        resp == Response(NOT_FOUND, NoBody) && expenses == old(expenses)
      ensures ParseId(param).Some? && ParseId(param).value in old(expenses) ==>
        var id := ParseId(param).value;
        var e := Merged(old(expenses)[id], patch);
        && resp == Response(OK, ExpenseRow(e))
        && expenses == old(expenses)[id := e]
    {
      var id := ParseId(param);
      if id.None? {
        return Response(BAD_REQUEST, NoBody);
      }
      if id.value !in expenses {
        return Response(NOT_FOUND, NoBody);
      }
      var found := ApplyUpdates(expenses[id.value], patch);
      ReplaceExpenseKeeps(expenses, nextExpenseId, id.value, found);
      expenses := expenses[id.value := found];
      resp := Response(OK, ExpenseRow(found));
    }

    // ----------------------------------------------------------- categories

    /** GET /categories: every category, each once (the order is not specified). */
    method ListCategories() returns (resp: Response)
      requires Valid()
      ensures resp.status == OK && resp.body.CategoryRows?
      ensures forall c :: c in resp.body.categories <==> c in categories.Values
      ensures forall i, j :: 0 <= i < j < |resp.body.categories| ==>
        resp.body.categories[i].id != resp.body.categories[j].id
    {
      var rows := ValuesAt(categories, IdsInRange(categories, 1, nextCategoryId));
      AllCategoriesListed(categories, nextCategoryId);
      resp := Response(OK, CategoryRows(rows));
    }

    /** POST /categories: a name that fails the guard gets a bare `sendStatus` 400; a
        trimmed name some category already has gets 400 with the duplicate
        message; neither changes anything. Otherwise one category is added
        under a fresh id with the trimmed name and returned with 201. */
    method CreateCategory(name: JsValue) returns (resp: Response)
      requires Valid()
      modifies this`categories, this`nextCategoryId
      ensures Valid()
      ensures !ValidName(name) ==>
        resp == Response(BAD_REQUEST, NoBody)
        && categories == old(categories) && nextCategoryId == old(nextCategoryId)
      ensures ValidName(name) && old(NameTaken(Trim(name.s), None)) ==>
        resp == Response(BAD_REQUEST, Message("Category name already exists"))
        && categories == old(categories) && nextCategoryId == old(nextCategoryId)
      ensures ValidName(name) && !old(NameTaken(Trim(name.s), None)) ==>
        var c := Category(old(nextCategoryId), Trim(name.s));
        && c.id !in old(categories)
        && resp == Response(CREATED, CategoryRow(c))
        && categories == old(categories)[c.id := c]
        && nextCategoryId == old(nextCategoryId) + 1
    {
      if !ValidName(name) {
        return Response(BAD_REQUEST, NoBody);
      }
      var trimmed := Trim(name.s);
      if NameTaken(trimmed, None) {
        return Response(BAD_REQUEST, Message("Category name already exists"));
      }
      TrimOfValidIsTidy(name);
      var c := Category(nextCategoryId, trimmed);
      AddCategoryKeeps(categories, nextCategoryId, c);
      categories := categories[c.id := c];
      nextCategoryId := nextCategoryId + 1;
      resp := Response(CREATED, CategoryRow(c));
    }

    /** GET /categories/:categoryId: 400 for an id that does not parse, 404
        for an id with no category, otherwise the category. */
    method GetCategory(param: string) returns (resp: Response)
      ensures ParseId(param).None? ==> resp == Response(BAD_REQUEST, NoBody)
      ensures ParseId(param).Some? && ParseId(param).value !in categories ==>
        resp == Response(NOT_FOUND, Message("Category not found"))
      ensures ParseId(param).Some? && ParseId(param).value in categories ==>
        resp == Response(OK, CategoryRow(categories[ParseId(param).value]))
    {
      var id := ParseId(param);
      if id.None? {
        return Response(BAD_REQUEST, NoBody);
      }
      if id.value !in categories {
        return Response(NOT_FOUND, Message("Category not found"));
      }
      resp := Response(OK, CategoryRow(categories[id.value]));
    }

    /** PATCH /categories/:categoryId: 400 for a bad id, then 400 for a name
        that is present but fails the guard (whether or not the category
        exists), then 404, then 400 with the duplicate message when another
        category has the trimmed name; otherwise the trimmed name, when
        present, replaces the stored one. */
    method UpdateCategory(param: string, name: JsValue) returns (resp: Response)
      requires Valid()
      modifies this`categories
      ensures Valid()
      ensures ParseId(param).None? ==> resp == Response(BAD_REQUEST, NoBody) && categories == old(categories)
      ensures ParseId(param).Some? && name != Undefined && !ValidName(name) ==>
        resp == Response(BAD_REQUEST, NoBody) && categories == old(categories)
      ensures ParseId(param).Some? && (name == Undefined || ValidName(name)) && ParseId(param).value !in old(categories) ==>
        resp == Response(NOT_FOUND, Message("Category not found")) && categories == old(categories)
      ensures ParseId(param).Some? && ValidName(name) && ParseId(param).value in old(categories)
              && old(NameTaken(Trim(name.s), ParseId(param))) ==>
        resp == Response(BAD_REQUEST, Message("Category name already exists")) && categories == old(categories)
      ensures ParseId(param).Some? && ParseId(param).value in old(categories)
              && (name == Undefined || (ValidName(name) && !old(NameTaken(Trim(name.s), ParseId(param))))) ==>
        var id := ParseId(param).value;
        var c := if name == Undefined then old(categories)[id] else old(categories)[id].(name := Trim(name.s));
        && resp == Response(OK, CategoryRow(c))
        && categories == old(categories)[id := c]
    {
      var id := ParseId(param);
      if id.None? {
        return Response(BAD_REQUEST, NoBody);
      }
      if name != Undefined && !ValidName(name) {
        return Response(BAD_REQUEST, NoBody);
      }
      if id.value !in categories {
        return Response(NOT_FOUND, Message("Category not found"));
      }
      var c := categories[id.value];
      if name != Undefined {
        var trimmed := Trim(name.s);
        if NameTaken(trimmed, id) {
          return Response(BAD_REQUEST, Message("Category name already exists"));
        }
        TrimOfValidIsTidy(name);
        c := c.(name := trimmed);
      }
      ReplaceCategoryKeeps(categories, nextCategoryId, id.value, c);
      categories := categories[id.value := c];
      resp := Response(OK, CategoryRow(c));
    }

    /** DELETE /categories/:categoryId: 400 and 404 as for GET, changing
        nothing; otherwise exactly that category is removed and 204 is sent. */
    method DeleteCategory(param: string) returns (resp: Response)
      requires Valid()
      modifies this`categories
      ensures Valid()
      ensures ParseId(param).None? ==> resp == Response(BAD_REQUEST, NoBody) && categories == old(categories)
      ensures ParseId(param).Some? && ParseId(param).value !in old(categories) ==>
        resp == Response(NOT_FOUND, Message("Category not found")) && categories == old(categories)
      ensures ParseId(param).Some? && ParseId(param).value in old(categories) ==>
        resp == Response(NO_CONTENT, NoBody) && categories == old(categories) - {ParseId(param).value}
    {
      var id := ParseId(param);
      if id.None? {
        return Response(BAD_REQUEST, NoBody);
      }
      if id.value !in categories {
        return Response(NOT_FOUND, Message("Category not found"));
      }
      RemoveCategoryKeeps(categories, nextCategoryId, id.value);
      categories := categories - {id.value};
      resp := Response(NO_CONTENT, NoBody);
    }

    // ------------------------------------------------------------ sequences

    /** A user that DELETE removed is no longer found by GET. */
    method DeleteThenGetUser(param: string) returns (deleted: Response, fetched: Response)
      requires Valid()
      modifies this`users
      ensures Valid()
      ensures deleted.status == NO_CONTENT ==> fetched == Response(NOT_FOUND, Message("User not found"))
    {
      deleted := DeleteUser(param);
      fetched := GetUser(param);
    }

    /** An expense that DELETE removed is no longer found by GET. */
    method DeleteThenGetExpense(param: string) returns (deleted: Response, fetched: Response)
      requires Valid()
      modifies this`expenses
      ensures Valid()
      ensures deleted.status == NO_CONTENT ==> fetched == Response(NOT_FOUND, NoBody)
    {
      deleted := DeleteExpense(param);
      fetched := GetExpense(param);
    }

    /** A category that DELETE removed is no longer found by GET. */
    method DeleteThenGetCategory(param: string) returns (deleted: Response, fetched: Response)
      requires Valid()
      modifies this`categories
      ensures Valid()
      ensures deleted.status == NO_CONTENT ==> fetched == Response(NOT_FOUND, Message("Category not found"))
    {
      deleted := DeleteCategory(param);
      fetched := GetCategory(param);
    }

    /** GET on the id POST /users handed out returns the created user. */
    method CreateThenGetUser(name: JsValue, param: string) returns (created: Response, fetched: Response)
      requires Valid() && ParseId(param) == Some(nextUserId)
      modifies this`users, this`nextUserId
      ensures Valid()
      ensures created.status == CREATED ==> created.body.UserRow? && fetched == Response(OK, created.body)
      ensures created.status == CREATED <==> ValidName(name)
    {
      created := CreateUser(name);
      fetched := GetUser(param);
    }

    /** GET on the id POST /expenses handed out returns the created expense. */
    method CreateThenGetExpense(input: ExpenseInput, param: string) returns (created: Response, fetched: Response)
      requires Valid() && ParseId(param) == Some(nextExpenseId)
      modifies this`expenses, this`nextExpenseId
      ensures Valid()
      ensures created.status == CREATED ==> created.body.ExpenseRow? && fetched == Response(OK, created.body)
    {
      created := CreateExpense(input);
      fetched := GetExpense(param);
    }

    /** GET on the id POST /categories handed out returns the created
        category, and a second POST of the same name is refused. */
    method CreateCategoryTwice(name: JsValue, param: string) returns (created: Response, fetched: Response, again: Response)
      requires Valid() && ParseId(param) == Some(nextCategoryId)
      modifies this`categories, this`nextCategoryId
      ensures Valid()
      ensures created.status == CREATED ==> created.body.CategoryRow? && fetched == Response(OK, created.body)
      ensures created.status == CREATED ==> again == Response(BAD_REQUEST, Message("Category name already exists"))
    {
      created := CreateCategory(name);
      fetched := GetCategory(param);
      again := CreateCategory(name);
    }
  }
}
