/**
 * The recipe handlers over the `recipes` collection: listing, lookup by
 * identifier, and creation with validation, white-space trimming and the
 * `dd/mm/yyyy` creation date.
 */
module RecipeRoute {

  import opened Options
  import opened JsStrings
  import opened JsValues
  import opened Mongo

  // ---------------------------------------------------------------------
  // The creation date

  type DayOfMonth = d: int | 1 <= d <= 31 witness 1
  type MonthIndex = m: int | 0 <= m <= 11 witness 0

  /** The server-local date as `Date` reports it: `getDate()`, the 0-based
      `getMonth()` and `getFullYear()`. */
  datatype LocalDate = LocalDate(day: DayOfMonth, monthIndex: MonthIndex, fullYear: int)

  /** `String(n).padStart(2, "0")`: the decimal form of `n`, with a `0` in
      front when it is a single character. */
  function TwoDigits(n: int): string {
    PadStart(NumberToString(n), 2, '0')
  }

  /** `get_numeric_date()` for the given date: day, 1-based month and year,
      separated by slashes. */
  function NumericDate(date: LocalDate): string {
    TwoDigits(date.day) + "/" + TwoDigits(date.monthIndex + 1) + "/" + NumberToString(date.fullYear)
  }

  /** A number below 100 is written with exactly two digits. */
  lemma TwoDigitsShape(n: nat)
    requires n < 100
    ensures |TwoDigits(n)| == 2 && IsDigit(TwoDigits(n)[0]) && IsDigit(TwoDigits(n)[1])
  {
    TwoDigitsValue(n);
  }

  /** A number below 100 is written with exactly two digits, which read back
      as the number. */
  lemma TwoDigitsValue(n: nat)
    requires n < 100
    ensures |TwoDigits(n)| == 2 && AllDigits(TwoDigits(n)) && DecimalValue(TwoDigits(n)) == n
  {
    DecimalLength(n);
    var d := NatToDecimal(n);
    if n >= 10 {
      DecimalRoundTrip(n);
      assert TwoDigits(n) == d;
    } else {
      assert d == [DigitChar(n)];
      PadOneDigit(d);
      DecimalOfTwo('0', DigitChar(n));
    }
  }

  /** A single digit is padded with one `0`. */
  lemma PadOneDigit(d: string)
    requires |d| == 1
    ensures PadStart(d, 2, '0') == ['0', d[0]]
  {
  }

  /** The value of two decimal digits. */
  lemma DecimalOfTwo(a: char, b: char)
    requires IsDigit(a) && IsDigit(b)
    ensures AllDigits([a, b]) && DecimalValue([a, b]) == DigitValue(a) * 10 + DigitValue(b)
  {
    assert [a, b][..1] == [a] && [a][..0] == [];
    assert DecimalValue([a]) == DigitValue(a);
  }

  /** Where the parts of `day + "/" + month + "/" + year` sit. */
  lemma SlashedLayout(day: string, month: string, year: string)
    requires |day| == 2 && |month| == 2
    ensures var r := day + "/" + month + "/" + year;
      && |r| == 6 + |year| && r[2] == '/' && r[5] == '/'
      && r[..2] == day && r[3..5] == month && r[6..] == year
  {
    var r := day + "/" + month + "/" + year;
    assert r[..2] == day;
    assert r[3..5] == month;
    assert r[6..] == year;
  }

  /** The date is two zero-padded digits of the day, `/`, two zero-padded
      digits of the 1-based month, `/`, then the year; ten characters for a
      four-digit year. */
  lemma NumericDateLayout(date: LocalDate)
    ensures var r := NumericDate(date);
      && |r| == 6 + |NumberToString(date.fullYear)|
      && r[2] == '/' && r[5] == '/'
      && AllDigits(r[..2]) && DecimalValue(r[..2]) == date.day
      && AllDigits(r[3..5]) && DecimalValue(r[3..5]) == date.monthIndex + 1
      && r[6..] == NumberToString(date.fullYear)
      && (1000 <= date.fullYear <= 9999 ==> |r| == 10)
  {
    TwoDigitsValue(date.day);
    TwoDigitsValue(date.monthIndex + 1);
    SlashedLayout(TwoDigits(date.day), TwoDigits(date.monthIndex + 1), NumberToString(date.fullYear));
    if 1000 <= date.fullYear <= 9999 {
      DecimalLength(date.fullYear);
    }
  }

  /** Reads a `dd/mm/yyyy` date back; the partner of `NumericDate`. */
  function ParseNumericDate(s: string): Option<LocalDate> {
    if |s| < 7 || s[2] != '/' || s[5] != '/' || !AllDigitsFrom(s[..2], 0) || !AllDigitsFrom(s[3..5], 0) then None
    else
      var day := DecimalValue(s[..2]);
      var month := DecimalValue(s[3..5]);
      match ParseInteger(s[6..])
      case None => None
      case Some(year) =>
        if 1 <= day <= 31 && 1 <= month <= 12 then Some(LocalDate(day, month - 1, year)) else None
  }

  /** `ParseNumericDate` on a string laid out as `dd/mm/` and a year. */
  lemma ParseLaidOutDate(s: string, day: DayOfMonth, month: int, year: int)
    requires 1 <= month <= 12
    requires |s| >= 7 && s[2] == '/' && s[5] == '/'
    requires AllDigits(s[..2]) && DecimalValue(s[..2]) == day
    requires AllDigits(s[3..5]) && DecimalValue(s[3..5]) == month
    requires ParseInteger(s[6..]) == Some(year)
    ensures ParseNumericDate(s) == Some(LocalDate(day, month - 1, year))
  {
    assert AllDigitsFrom(s[..2], 0) && AllDigitsFrom(s[3..5], 0);
  }

  /** The date written by `NumericDate` reads back as the same date. */
  lemma NumericDateRoundTrip(date: LocalDate)
    ensures ParseNumericDate(NumericDate(date)) == Some(date)
  {
    var r := NumericDate(date);
    NumericDateLayout(date);
    NumberRoundTrip(date.fullYear);
    ParseLaidOutDate(r, date.day, date.monthIndex + 1, date.fullYear);
  }

  // ---------------------------------------------------------------------
  // Records and responses

  /** A stored recipe (its `_id` is the document's identifier). */
  datatype Recipe = Recipe(
    title: string,
    shortDescription: string,
    authorName: string,
    longDescription: string,
    ingredients: seq<string>,
    instructions: string,
    createdAt: string)

  datatype RecipeBody = RecipeBody(
    title: JsVal,
    shortDescription: JsVal,
    authorName: JsVal,
    longDescription: JsVal,
    ingredients: JsVal,
    instructions: JsVal)

  /** The status code and JSON body a handler answers with. `Unhandled` is
      an exception the handler does not catch: it sends no answer of its own. */
  datatype RecipeResponse =
    | Failure(status: nat, error: string)
    | Created(status: nat, message: string, recipeId: ObjectId)
    | All(status: nat, recipes: seq<Document<Recipe>>)
    | One(status: nat, recipe: Document<Recipe>)
    | Unhandled

  const ListFailed := Failure(500, "failed to fetch recipes")
  const InvalidRecipeId := Failure(400, "invalid recipe id")
  const RecipeNotFound := Failure(404, "recipe not found")
  const FetchFailed := Failure(400, "failed to fetch recipe")
  const AllFieldsRequired := Failure(400, "all fields are required")
  const IngredientsNotStrings := Failure(400, "ingredients must be an array of strings")
  const CreateFailed := Failure(500, "failed to create recipe")

  // ---------------------------------------------------------------------
  // Listing and lookup

  /** `GET /`: every stored recipe, in the collection's order. */
  function List(recipes: seq<Document<Recipe>>, storeFails: bool): (r: RecipeResponse)
    ensures r.All? <==> !storeFails
    ensures r.All? ==> r.status == 200 && r.recipes == recipes
    ensures !r.All? ==> r == ListFailed
  {
    if storeFails then ListFailed else All(200, recipes)
  }

  /** The `findOne` filter `{ _id: id }`. */
  function IdIs(id: ObjectId): Document<Recipe> -> bool {
    (d: Document<Recipe>) => d.id == id
  }

  /** `GET /:id`: a malformed identifier is rejected whatever the collection
      holds; otherwise the stored recipe with that identifier, or 404. */
  function GetById(recipes: seq<Document<Recipe>>, codec: ObjectIdCodec, id: string, storeFails: bool)
    : (r: RecipeResponse)
    ensures r == InvalidRecipeId <==> !codec.isValid(id)
    ensures codec.isValid(id) && storeFails ==> r == FetchFailed
    ensures (codec.isValid(id) && !storeFails
             && exists k :: 0 <= k < |recipes| && recipes[k].id == codec.parse(id)) ==> r.One?
    ensures r.One? ==> && codec.isValid(id) && !storeFails && r.status == 200
                       && r.recipe in recipes && r.recipe.id == codec.parse(id)
    ensures r == RecipeNotFound <==>
              codec.isValid(id) && !storeFails
              && forall k :: 0 <= k < |recipes| ==> recipes[k].id != codec.parse(id)
    ensures r.One? || r in {InvalidRecipeId, RecipeNotFound, FetchFailed}
  {
    if !codec.isValid(id) then InvalidRecipeId
    else if storeFails then FetchFailed
    else match FindOne(recipes, IdIs(codec.parse(id)))
      case None => RecipeNotFound
      case Some(recipe) => One(200, recipe)
  }

  /** When identifiers are unique, looking a stored recipe up by its own
      identifier finds exactly that recipe. */
  lemma StoredRecipeFound(recipes: seq<Document<Recipe>>, nextId: ObjectId, codec: ObjectIdCodec,
                          id: string, k: nat)
    requires IdsIssued(recipes, nextId)
    requires k < |recipes| && codec.isValid(id) && codec.parse(id) == recipes[k].id
    ensures GetById(recipes, codec, id, false) == One(200, recipes[k])
  {
    var r := GetById(recipes, codec, id, false);
    assert !(forall j :: 0 <= j < |recipes| ==> recipes[j].id != codec.parse(id));
    var j :| 0 <= j < |recipes| && recipes[j] == r.recipe;
    assert j == k;
  }

  // ---------------------------------------------------------------------
  // Creation

  predicate AllRecipeFieldsPresent(body: RecipeBody) {
    Truthy(body.title) && Truthy(body.shortDescription) && Truthy(body.authorName)
    && Truthy(body.longDescription) && Truthy(body.ingredients) && Truthy(body.instructions)
  }

  /** `Array.isArray(v) && !v.some(i => typeof i !== "string")`. */
  function IsArrayOfStrings(v: JsVal): (r: bool)
    ensures r <==> v.Arr? && forall k :: 0 <= k < |v.elems| ==> v.elems[k].Str?
  {
    v.Arr? && !(exists k | 0 <= k < |v.elems| :: !v.elems[k].Str?)
  }

  /** The checks made before the record is built, in order. */
  function RecipeValidation(body: RecipeBody): (r: Option<RecipeResponse>)
    ensures r == Some(AllFieldsRequired) <==> !AllRecipeFieldsPresent(body)
    ensures r == Some(IngredientsNotStrings) <==>
              AllRecipeFieldsPresent(body) && !IsArrayOfStrings(body.ingredients)
    ensures r == None <==> AllRecipeFieldsPresent(body) && IsArrayOfStrings(body.ingredients)
  {
    if !AllRecipeFieldsPresent(body) then Some(AllFieldsRequired)
    else if !IsArrayOfStrings(body.ingredients) then Some(IngredientsNotStrings)
    else None
  }

  /** The fields the handler calls `.trim()` on are strings; for any other
      value that call throws. */
  predicate TextFieldsAreStrings(body: RecipeBody) {
    body.title.Str? && body.shortDescription.Str? && body.authorName.Str?
    && body.longDescription.Str? && body.instructions.Str?
  }

  /** `ingredients.map(i => i.trim())`: the same strings in the same order,
      each trimmed. */
  function TrimmedIngredients(elems: seq<JsVal>): (r: seq<string>)
    requires forall k :: 0 <= k < |elems| ==> elems[k].Str?
    ensures |r| == |elems|
    ensures forall k :: 0 <= k < |elems| ==> r[k] == Trim(elems[k].s)
  {
    seq(|elems|, k requires 0 <= k < |elems| => Trim(elems[k].s))
  }

  /** The record the handler builds from the body and the date. */
  function NewRecipe(body: RecipeBody, date: LocalDate): Recipe
    requires TextFieldsAreStrings(body) && IsArrayOfStrings(body.ingredients)
  {
    Recipe(Trim(body.title.s), Trim(body.shortDescription.s), Trim(body.authorName.s),
           Trim(body.longDescription.s), TrimmedIngredients(body.ingredients.elems),
           Trim(body.instructions.s), NumericDate(date))
  }

  /** Every string of the recipe, each ingredient included, has no white
      space on either end. */
  ghost predicate Clean(recipe: Recipe) {
    && NoOuterWhiteSpace(recipe.title) && NoOuterWhiteSpace(recipe.shortDescription)
    && NoOuterWhiteSpace(recipe.authorName) && NoOuterWhiteSpace(recipe.longDescription)
    && NoOuterWhiteSpace(recipe.instructions) && NoOuterWhiteSpace(recipe.createdAt)
    && forall k :: 0 <= k < |recipe.ingredients| ==> NoOuterWhiteSpace(recipe.ingredients[k])
  }

  ghost predicate AllClean(recipes: seq<Document<Recipe>>) {
    forall k :: 0 <= k < |recipes| ==> Clean(recipes[k].fields)
  }

  /** What `POST /` answers and what the collection holds afterwards, for
      the given date. `storeFails` says that `insertOne` throws. */
  function CreateOutcome(recipes: seq<Document<Recipe>>, nextId: ObjectId, body: RecipeBody,
                         date: LocalDate, storeFails: bool): (RecipeResponse, seq<Document<Recipe>>)
  {
    match RecipeValidation(body)
    case Some(rejection) => (rejection, recipes)
    case None =>
      if !TextFieldsAreStrings(body) then (Unhandled, recipes)
      else if storeFails then (CreateFailed, recipes)
      else (Created(201, "recipe created", nextId), recipes + [Document(nextId, NewRecipe(body, date))])
  }

  /** Creation either leaves the collection as it was, or answers 201 with a
      new identifier and appends exactly one recipe: each text field trimmed,
      the ingredients trimmed one by one in their order, and the date of
      creation as `dd/mm/yyyy`. It succeeds exactly when the six fields are
      present, the ingredients are an array of strings, the text fields are
      strings and the insert goes through. */
  lemma CreateEffect(recipes: seq<Document<Recipe>>, nextId: ObjectId, body: RecipeBody,
                     date: LocalDate, storeFails: bool)
    ensures var (resp, after) := CreateOutcome(recipes, nextId, body, date, storeFails);
      && (!resp.Created? ==> after == recipes)
      && (resp.Created? <==>
            AllRecipeFieldsPresent(body) && IsArrayOfStrings(body.ingredients)
            && TextFieldsAreStrings(body) && !storeFails)
      && (resp.Created? ==>
            && TextFieldsAreStrings(body) && IsArrayOfStrings(body.ingredients)
            && resp.status == 201 && resp.recipeId == nextId
            && |after| == |recipes| + 1 && after[..|recipes|] == recipes
            && after[|recipes|].id == nextId
            && after[|recipes|].fields.title == Trim(body.title.s)
            && after[|recipes|].fields.shortDescription == Trim(body.shortDescription.s)
            && after[|recipes|].fields.authorName == Trim(body.authorName.s)
            && after[|recipes|].fields.longDescription == Trim(body.longDescription.s)
            && after[|recipes|].fields.instructions == Trim(body.instructions.s)
            && |after[|recipes|].fields.ingredients| == |body.ingredients.elems|
            && (forall k :: 0 <= k < |body.ingredients.elems| ==>
                  after[|recipes|].fields.ingredients[k] == Trim(body.ingredients.elems[k].s))
            && after[|recipes|].fields.createdAt == NumericDate(date))
  {
  }

  /** A missing field is reported before the ingredients are looked at, and
      a bad ingredient list before anything is built. A text field that is
      not a string makes `.trim()` throw before the insert, and a throwing
      insert is answered 500. None of these stores anything. */
  lemma CreateRejections(recipes: seq<Document<Recipe>>, nextId: ObjectId, body: RecipeBody,
                         date: LocalDate, storeFails: bool)
    ensures !AllRecipeFieldsPresent(body) ==>
              CreateOutcome(recipes, nextId, body, date, storeFails) == (AllFieldsRequired, recipes)
    ensures AllRecipeFieldsPresent(body) && !IsArrayOfStrings(body.ingredients) ==>
              CreateOutcome(recipes, nextId, body, date, storeFails) == (IngredientsNotStrings, recipes)
    ensures RecipeValidation(body).None? && !TextFieldsAreStrings(body) ==>
              CreateOutcome(recipes, nextId, body, date, storeFails) == (Unhandled, recipes)
    ensures RecipeValidation(body).None? && TextFieldsAreStrings(body) && storeFails ==>
              CreateOutcome(recipes, nextId, body, date, storeFails) == (CreateFailed, recipes)
  {
  }

  /** A non-empty string of white space only passes the presence check and
      is stored as the empty string. */
  lemma BlankTextStoredEmpty(s: string)
    requires s != [] && AllWhiteSpace(s)
    ensures Truthy(Str(s)) && Trim(s) == []
  {
    TrimEmptyIffAllWhiteSpace(s);
  }

  /** A string that starts with two digits and ends with the digits of a
      year has no white space on either end. */
  lemma StampClean(stamp: string, year: string)
    requires |stamp| >= 7 && AllDigits(stamp[..2]) && stamp[6..] == year
    requires IsDigit(year[|year| - 1])
    ensures NoOuterWhiteSpace(stamp)
  {
    assert stamp[0] == stamp[..2][0];
    assert stamp[|stamp| - 1] == year[|year| - 1];
  }

  /** The date stamp has no white space on either end. */
  lemma NumericDateIsClean(date: LocalDate)
    ensures NoOuterWhiteSpace(NumericDate(date))
  {
    var stamp, year := NumericDate(date), NumberToString(date.fullYear);
    assert |stamp| >= 7 && AllDigits(stamp[..2]) && stamp[6..] == year by { NumericDateLayout(date); }
    StampClean(stamp, year);
  }

  /** Every string of a newly built recipe is trimmed. */
  lemma NewRecipeIsClean(body: RecipeBody, date: LocalDate)
    requires TextFieldsAreStrings(body) && IsArrayOfStrings(body.ingredients)
    ensures Clean(NewRecipe(body, date))
  {
    NumericDateIsClean(date);
  }

  /** Appending a clean recipe to clean recipes leaves them all clean. */
  lemma AppendKeepsClean(recipes: seq<Document<Recipe>>, doc: Document<Recipe>)
    requires AllClean(recipes) && Clean(doc.fields)
    ensures AllClean(recipes + [doc])
  {
    var after := recipes + [doc];
    forall k | 0 <= k < |after| ensures Clean(after[k].fields) {
      if k < |recipes| { assert after[k] == recipes[k]; }
    }
  }

  /** Creation keeps every stored string free of outer white space. */
  lemma CreateKeepsRecipesClean(recipes: seq<Document<Recipe>>, nextId: ObjectId, body: RecipeBody,
                                date: LocalDate, storeFails: bool)
    requires AllClean(recipes)
    ensures AllClean(CreateOutcome(recipes, nextId, body, date, storeFails).1)
  {
    if CreateOutcome(recipes, nextId, body, date, storeFails).0.Created? {
      var doc := Document(nextId, NewRecipe(body, date));
      assert Clean(doc.fields) by { NewRecipeIsClean(body, date); }
      AppendKeepsClean(recipes, doc);
    }
  }

  /** A recipe appended under a fresh identifier is listed last and is what
      looking that identifier up finds. */
  lemma AppendedRecipeFound(recipes: seq<Document<Recipe>>, nextId: ObjectId, doc: Document<Recipe>,
                            codec: ObjectIdCodec, id: string)
    requires IdsIssued(recipes, nextId) && doc.id == nextId
    requires codec.isValid(id) && codec.parse(id) == nextId
    ensures List(recipes + [doc], false) == All(200, recipes + [doc])
    ensures GetById(recipes + [doc], codec, id, false) == One(200, doc)
  {
    var after := recipes + [doc];
    assert IdsIssued(after, nextId + 1);
    StoredRecipeFound(after, nextId + 1, codec, id, |recipes|);
  }

  /** After a successful creation the listing holds the earlier recipes and
      then the new one, and looking the new identifier up finds it. */
  lemma CreatedRecipeIsListedAndFound(recipes: seq<Document<Recipe>>, nextId: ObjectId, body: RecipeBody,
                                      date: LocalDate, codec: ObjectIdCodec, id: string)
    requires IdsIssued(recipes, nextId)
    requires CreateOutcome(recipes, nextId, body, date, false).0.Created?
    requires codec.isValid(id) && codec.parse(id) == nextId
    ensures var after := CreateOutcome(recipes, nextId, body, date, false).1;
            && List(after, false) == All(200, recipes + [Document(nextId, NewRecipe(body, date))])
            && GetById(after, codec, id, false) == One(200, Document(nextId, NewRecipe(body, date)))
  {
    AppendedRecipeFound(recipes, nextId, Document(nextId, NewRecipe(body, date)), codec, id);
  }

  /** `POST /`, run against the collection on the given date. */
  method Create(recipes: Collection<Recipe>, body: RecipeBody, date: LocalDate, storeFails: bool)
    returns (resp: RecipeResponse)
    requires recipes.Valid()
    modifies recipes
    ensures recipes.Valid()
    ensures (resp, recipes.docs) == CreateOutcome(old(recipes.docs), old(recipes.nextId), body, date, storeFails)
    ensures recipes.nextId == if resp.Created? then old(recipes.nextId) + 1 else old(recipes.nextId)
    ensures AllClean(old(recipes.docs)) ==> AllClean(recipes.docs)
  {
    ghost var before, nextId := recipes.docs, recipes.nextId;
    ghost var outcome := CreateOutcome(before, nextId, body, date, storeFails);
    assert AllClean(before) ==> AllClean(outcome.1) by {
      if AllClean(before) {
        CreateKeepsRecipesClean(before, nextId, body, date, storeFails);
      }
    }
    var rejection := RecipeValidation(body);
    if rejection.Some? {
      return rejection.value;
    }
    if !TextFieldsAreStrings(body) {
      return Unhandled;
    }
    var recipe := NewRecipe(body, date);
    if storeFails {
      return CreateFailed;
    }
    var id := recipes.InsertOne(recipe);
    resp := Created(201, "recipe created", id);
    assert outcome == (resp, before + [Document(id, recipe)]);
  }
}
