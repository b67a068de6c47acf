/** The three record types of the store, the request bodies of the handlers,
    the responses they send, the name guard shared by users and categories,
    and the partial merge that PATCH /expenses/:id applies. */
module Records {
  import opened JsValues

  /** A row of the User table. The name is stored exactly as the client sent it. */
  datatype User = User(id: int, name: string)

  /** A row of the Category table. The name is stored trimmed. */
  datatype Category = Category(id: int, name: string)

  /** A row of the Expense table. Apart from `id` and `userId`, the columns
      hold whatever JSON value the client sent (`Null` for a SQL NULL): the
      handlers do not check their types. */
  datatype Expense = Expense(
    id: int,
    userId: int,
    spentAt: JsValue,
    title: JsValue,
    amount: JsValue,
    category: JsValue,
    note: JsValue)

  /** The body of POST /expenses, one field per destructured property. */
  datatype ExpenseInput = ExpenseInput(
    userId: JsValue,
    spentAt: JsValue,
    title: JsValue,
    amount: JsValue,
    category: JsValue,
    note: JsValue)

  /** The body of PATCH /expenses/:id; `Undefined` marks an absent field. */
  datatype ExpensePatch = ExpensePatch(
    spentAt: JsValue,
    title: JsValue,
    amount: JsValue,
    category: JsValue,
    note: JsValue)

  /** What a handler sends back. `NoBody` is `res.sendStatus(...)`, whose
      body is only the status text. */
  datatype Body =
    | NoBody
    | Message(text: string)
    | UserRow(user: User)
    | UserRows(users: seq<User>)
    | ExpenseRow(expense: Expense)
    | ExpenseRows(expenses: seq<Expense>)
    | CategoryRow(category: Category)
    | CategoryRows(categories: seq<Category>)

  datatype Response = Response(status: int, body: Body)

  const OK := 200
  const CREATED := 201
  const NO_CONTENT := 204
  const BAD_REQUEST := 400
  const NOT_FOUND := 404
  const SERVER_ERROR := 500

  /** `typeof name === 'string' && name.trim() !== ''`, the guard of POST and
      PATCH on users and categories. */
  predicate ValidName(v: JsValue) {
    v.Str? && Trim(v.s) != []
  }

  /** The guard accepts exactly the strings that hold a character other than
      whitespace. */
  lemma ValidNameIff(v: JsValue)
    ensures ValidName(v) <==> v.Str? && exists i :: 0 <= i < |v.s| && !IsJsWhitespace(v.s[i])
  {
    if v.Str? {
      TrimIsEmptyIffBlank(v.s);
    }
  }

  /** What a SQL column holds for a property of the inserted object: an
      absent property becomes NULL. */
  function Stored(v: JsValue): JsValue {
    if v == Undefined then Null else v
  }

  /** The guard of POST /expenses: `userId` and `amount` are rejected only
      when absent, `spentAt` and `title` whenever they are falsy. */
  predicate MissingRequired(input: ExpenseInput) {
    input.userId == Undefined || !Truthy(input.spentAt) || !Truthy(input.title) || input.amount == Undefined
  }

  /** The guard of POST /expenses is asymmetric: changing `userId` or
      `amount` alone to any present value (0, null, false or "") keeps a
      complete body complete, while changing `spentAt` or `title` alone makes
      it incomplete exactly when the new value is falsy. */
  lemma RequiredGuardAsymmetry(input: ExpenseInput, v: JsValue)
    requires !MissingRequired(input)
    ensures MissingRequired(input.(userId := v)) <==> v == Undefined
    ensures MissingRequired(input.(amount := v)) <==> v == Undefined
    ensures MissingRequired(input.(spentAt := v)) <==> !Truthy(v)
    ensures MissingRequired(input.(title := v)) <==> !Truthy(v)
  {
  }

  /** The row POST /expenses inserts: the parsed user id, the other fields as
      sent, and `note` only when it is truthy. */
  function NewExpense(id: int, userId: int, input: ExpenseInput): Expense {
    Expense(id, userId, input.spentAt, input.title, input.amount, Stored(input.category),
            if Truthy(input.note) then input.note else Null)
  }

  /** A row inserted from a complete body holds no `undefined` column: every
      field is stored as sent except that an absent `category` and a falsy
      `note` become NULL; `spentAt` and `title` are truthy. */
  lemma NewExpenseStored(id: int, userId: int, input: ExpenseInput)
    requires !MissingRequired(input)
    ensures var e := NewExpense(id, userId, input);
      && e.id == id && e.userId == userId
      && (forall k :: Column(e, k) != Undefined)
      && Truthy(e.spentAt) && Truthy(e.title)
      && e.spentAt == input.spentAt && e.title == input.title && e.amount == input.amount
      && (input.category != Undefined ==> e.category == input.category)
      && (e.note == input.note <==> Truthy(input.note) || input.note == Null)
      && (Truthy(e.note) <==> Truthy(input.note))
  {
  }

  /** The columns PATCH /expenses/:id may overwrite, in the order of the
      `updates` object. */
  datatype ExpenseKey = SpentAt | Title | Amount | CategoryKey | Note

  const UpdateKeys: seq<ExpenseKey> := [SpentAt, Title, Amount, CategoryKey, Note]

  function Column(e: Expense, k: ExpenseKey): JsValue {
    match k
    case SpentAt => e.spentAt
    case Title => e.title
    case Amount => e.amount
    case CategoryKey => e.category
    case Note => e.note
  }

  function WithColumn(e: Expense, k: ExpenseKey, v: JsValue): (r: Expense)
    ensures Column(r, k) == v
    ensures forall k' :: k' != k ==> Column(r, k') == Column(e, k')
    ensures r.id == e.id && r.userId == e.userId
  {
    match k
    case SpentAt => e.(spentAt := v)
    case Title => e.(title := v)
    case Amount => e.(amount := v)
    case CategoryKey => e.(category := v)
    case Note => e.(note := v)
  }

  function Requested(u: ExpensePatch, k: ExpenseKey): JsValue {
    match k
    case SpentAt => u.spentAt
    case Title => u.title
    case Amount => u.amount
    case CategoryKey => u.category
    case Note => u.note
  }

  /** The stored expense after a partial update: a field the patch leaves
      `Undefined` keeps its value, any other field takes the patch's value
      (`Null` included). */
  function Merged(e: Expense, u: ExpensePatch): Expense {
    Expense(
      e.id,
      e.userId,
      if u.spentAt == Undefined then e.spentAt else u.spentAt,
      if u.title == Undefined then e.title else u.title,
      if u.amount == Undefined then e.amount else u.amount,
      if u.category == Undefined then e.category else u.category,
      if u.note == Undefined then e.note else u.note)
  }

  /** Two expenses with the same id, user and columns are the same row. */
  lemma ExpenseByColumns(a: Expense, b: Expense)
    requires a.id == b.id && a.userId == b.userId
    requires forall k :: Column(a, k) == Column(b, k)
    ensures a == b
  {
    assert Column(a, SpentAt) == Column(b, SpentAt);
    assert Column(a, Title) == Column(b, Title);
    assert Column(a, Amount) == Column(b, Amount);
    assert Column(a, CategoryKey) == Column(b, CategoryKey);
    assert Column(a, Note) == Column(b, Note);
  }

  /** The `forEach` over the keys of `updates`: each key whose value is not
      `undefined` is assigned to the found expense. The result is the merge. */
  method ApplyUpdates(e: Expense, u: ExpensePatch) returns (r: Expense)
    ensures r == Merged(e, u)
  {
    r := e;
    for i := 0 to |UpdateKeys|
      invariant r.id == e.id && r.userId == e.userId
      invariant forall j :: 0 <= j < i ==>
        Column(r, UpdateKeys[j]) == (if Requested(u, UpdateKeys[j]) == Undefined then Column(e, UpdateKeys[j]) else Requested(u, UpdateKeys[j]))
      invariant forall j :: i <= j < |UpdateKeys| ==> Column(r, UpdateKeys[j]) == Column(e, UpdateKeys[j])
    {
      var key := UpdateKeys[i];
      if Requested(u, key) != Undefined {
        r := WithColumn(r, key, Requested(u, key));
      }
    }
    forall k ensures Column(r, k) == Column(Merged(e, u), k) {
      assert k == UpdateKeys[match k case SpentAt => 0 case Title => 1 case Amount => 2 case CategoryKey => 3 case Note => 4];
    }
    ExpenseByColumns(r, Merged(e, u));
  }

  /** The merge overwrites exactly the fields present in the patch and never
      touches the id or the owning user. */
  lemma MergedColumns(e: Expense, u: ExpensePatch, k: ExpenseKey)
    ensures Merged(e, u).id == e.id && Merged(e, u).userId == e.userId
    ensures Requested(u, k) == Undefined ==> Column(Merged(e, u), k) == Column(e, k)
    ensures Requested(u, k) != Undefined ==> Column(Merged(e, u), k) == Requested(u, k)
  {
  }

  /** Applying the same patch twice has the effect of applying it once. */
  lemma MergedIdempotent(e: Expense, u: ExpensePatch)
    ensures Merged(Merged(e, u), u) == Merged(e, u)
  {
  }

  /** A patch with every field absent leaves the expense as it was. */
  lemma MergedNothing(e: Expense)
    ensures Merged(e, ExpensePatch(Undefined, Undefined, Undefined, Undefined, Undefined)) == e
  {
  }

  /** The later of two patches wins on every field it sets. */
  lemma MergedTwice(e: Expense, u: ExpensePatch, v: ExpensePatch, k: ExpenseKey)
    requires Requested(v, k) != Undefined
    ensures Column(Merged(Merged(e, u), v), k) == Requested(v, k)
  {
  }
}
