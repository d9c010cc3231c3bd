/**
 * The request helpers of the recommendation service (app/utils.py):
 * the schema check on an incoming record, the one-hot expansion of its
 * categorical fields into a one-row feature frame, and the formatting of
 * model predictions into a ranked recommendation list.
 */
module Utils {
  import opened PyValues

  // ---------------------------------------------------------------------
  // validate_input
  // ---------------------------------------------------------------------

  /** An incoming record: field name to value, as the request body's dict. */
  type Record = map<string, PyValue>

  const RequiredFields: seq<string> :=
    ["user_id", "age", "gender", "category_preference", "price_range"]
  const Genders: seq<string> := ["M", "F"]
  const Categories: seq<string> := ["Electronics", "Fashion", "Home", "Sports"]
  const PriceRanges: seq<string> := ["Low", "Medium", "High"]

  /** A user id the schema accepts: an int that is not negative. A bool is an
      int to Python, and both True (1) and False (0) pass. */
  predicate IsUserId(v: PyValue) {
    match v
    case Int(n) => n >= 0
    case Bool(_) => true
    case _ => false
  }

  /** An age the schema accepts: an int from 18 to 100. A bool is an int too,
      but its value 0 or 1 is never in range. */
  predicate IsAge(v: PyValue) {
    v.Int? && 18 <= v.i <= 100
  }

  /** The record schema, stated field by field: every required field is
      present and holds an acceptable value; other fields are not looked at. */
  predicate IsUserInput(data: Record) {
    && "user_id" in data && IsUserId(data["user_id"])
    && "age" in data && IsAge(data["age"])
    && "gender" in data && data["gender"] in {Str("M"), Str("F")}
    && "category_preference" in data
    && data["category_preference"] in {Str("Electronics"), Str("Fashion"), Str("Home"), Str("Sports")}
    && "price_range" in data && data["price_range"] in {Str("Low"), Str("Medium"), Str("High")}
  }

  /** The loop over the required fields: stops at the first one missing. */
  function AllPresent(fields: seq<string>, data: Record): (r: bool)
    ensures r <==> forall f :: f in fields ==> f in data
  {
    if |fields| == 0 then true
    else if fields[0] !in data then false
    else AllPresent(fields[1..], data)
  }

  /** validate_input, check by check in the source's order. The integer
      comparisons are Python comparisons that would raise on a str or other
      non-number; each is guarded by the isinstance test before it. */
  function ValidateInput(data: Record): (r: Eval<bool>)
    ensures r.Returned?
    ensures r.value <==> IsUserInput(data)
  {
    if !AllPresent(RequiredFields, data) then Returned(false)
    else
      var userId, age := data["user_id"], data["age"];
      if !IsInstanceInt(userId) then Returned(false)
      else
        match Compare(userId, Lt, Int(0))
        case Raised(e) => Raised(e)
        case Returned(negative) =>
          if negative then Returned(false)
          else if !IsInstanceInt(age) then Returned(false)
          else
            // the chained comparison 18 <= age <= 100
            match Compare(Int(18), Le, age)
            case Raised(e) => Raised(e)
            case Returned(atLeast) =>
              if !atLeast then Returned(false)
              else
                match Compare(age, Le, Int(100))
                case Raised(e) => Raised(e)
                case Returned(atMost) =>
                  if !atMost then Returned(false)
                  else if !InStrList(data["gender"], Genders) then Returned(false)
                  else if !InStrList(data["category_preference"], Categories) then Returned(false)
                  else if !InStrList(data["price_range"], PriceRanges) then Returned(false)
                  else Returned(true)
  }

  /** A record that lacks any one required field is rejected. */
  lemma MissingFieldRejected(data: Record, field: string)
    requires field in RequiredFields && field !in data
    ensures ValidateInput(data) == Returned(false)
  {
  }

  /** Fields outside the five required ones do not affect the verdict. */
  lemma ExtraFieldsIgnored(data: Record, extra: Record)
    requires forall f :: f in RequiredFields ==> (f in data <==> f in extra)
    requires forall f :: f in RequiredFields && f in data ==> data[f] == extra[f]
    ensures ValidateInput(data) == ValidateInput(extra)
  {
    assert IsUserInput(data) <==> IsUserInput(extra) by {
      assert "user_id" in RequiredFields && "age" in RequiredFields && "gender" in RequiredFields;
      assert "category_preference" in RequiredFields && "price_range" in RequiredFields;
    }
  }

  /** The record of the service's own request example is accepted. */
  lemma SampleRequestAccepted()
    ensures ValidateInput(map["user_id" := Int(123), "age" := Int(25), "gender" := Str("M"),
                               "category_preference" := Str("Electronics"),
                               "price_range" := Str("Medium")]) == Returned(true)
  {
  }

  /** An under-age user is rejected, and so is an age given as a str. */
  lemma BadAgeRejected(data: Record)
    requires IsUserInput(data)
    ensures ValidateInput(data["age" := Int(5)]) == Returned(false)
    ensures ValidateInput(data["age" := Str("25")]) == Returned(false)
  {
  }

  /** Python's bool-is-int rule: True passes as a user id (it is 1), but a bool
      never passes as an age. */
  lemma BoolAsInt(data: Record)
    requires IsUserInput(data)
    ensures ValidateInput(data["user_id" := Bool(true)]) == Returned(true)
    ensures ValidateInput(data["age" := Bool(true)]) == Returned(false)
  {
  }

  // ---------------------------------------------------------------------
  // preprocess_input
  // ---------------------------------------------------------------------

  /** One column of a one-row frame: its name and its single cell. */
  datatype Entry = Entry(name: string, value: PyValue)

  /** A one-row frame, columns left to right. The frame built from a dict has
      its columns in the dict's insertion order. */
  type Row = seq<Entry>

  const CategoricalColumns: seq<string> := ["gender", "category_preference", "price_range"]

  /** `col in df.columns` */
  predicate HasColumn(row: Row, col: string) {
    |row| > 0 && (row[0].name == col || HasColumn(row[1..], col))
  }

  /** No two columns share a name, as for a frame built from a dict. */
  predicate DistinctNames(row: Row) {
    |row| == 0 || (!HasColumn(row[1..], row[0].name) && DistinctNames(row[1..]))
  }

  /** The cell of the (first) column named `col`: `df[col]` on a one-row frame. */
  function Lookup(row: Row, col: string): PyValue
    requires HasColumn(row, col)
  {
    if row[0].name == col then row[0].value else Lookup(row[1..], col)
  }

  /** The frame without every column whose name is in `cols`; the columns kept
      stay in their order. `df.drop(col, axis=1)` is `Without(df, [col])`. */
  function Without(row: Row, cols: seq<string>): (r: Row)
    ensures |r| <= |row|
  {
    if |row| == 0 then []
    else (if row[0].name in cols then [] else [row[0]]) + Without(row[1..], cols)
  }

  /** The name pandas gives the indicator column for value `v` of column `col`. */
  function DummyName(col: string, v: PyValue): string {
    col + "_" + ToStr(v)
  }

  /** `pd.get_dummies(df[col], prefix=col)` on a one-row frame: a single
      indicator column for the one value observed, set. */
  function GetDummies(col: string, v: PyValue): Row {
    [Entry(DummyName(col, v), Bool(true))]
  }

  /** `col in df.columns` holds exactly when some column is named `col`. */
  lemma {:induction false} HasColumnIndex(row: Row, col: string)
    ensures HasColumn(row, col) <==> exists k :: 0 <= k < |row| && row[k].name == col
  {
    if |row| > 0 {
      HasColumnIndex(row[1..], col);
      if HasColumn(row[1..], col) {
        var k :| 0 <= k < |row[1..]| && row[1..][k].name == col;
        assert row[k + 1].name == col;
      }
      if exists k :: 0 <= k < |row| && row[k].name == col {
        var k :| 0 <= k < |row| && row[k].name == col;
        if k > 0 {
          assert row[1..][k - 1].name == col;
        }
      }
    }
  }

  /** `df[col]` is the cell of a column the frame has under that name; on a
      frame with distinct names, of the only such column. */
  lemma {:induction false} LookupFound(row: Row, col: string, e: Entry)
    requires HasColumn(row, col)
    ensures Entry(col, Lookup(row, col)) in row
    ensures DistinctNames(row) && e in row && e.name == col ==> e.value == Lookup(row, col)
  {
    if row[0].name != col {
      LookupFound(row[1..], col, e);
    } else if DistinctNames(row) && e in row && e.name == col && e != row[0] {
      assert e in row[1..];
      var k :| 0 <= k < |row[1..]| && row[1..][k] == e;
      HasColumnIndex(row[1..], col);
    }
  }

  /** The indicator columns the loop appends for `col`: one if the record has
      the column, none otherwise. */
  function DummiesFor(data: Row, col: string): Row {
    if HasColumn(data, col) then GetDummies(col, Lookup(data, col)) else []
  }

  /** The indicator columns for `cols`, in that order. */
  function Dummies(data: Row, cols: seq<string>): Row {
    if |cols| == 0 then []
    else Dummies(data, cols[..|cols| - 1]) + DummiesFor(data, cols[|cols| - 1])
  }

  /** The frame preprocess_input returns, stated at once: the record's other
      columns in their order, then one indicator column per categorical column
      present, in the order gender, category_preference, price_range. */
  function Encoded(data: Row): Row {
    Without(data, CategoricalColumns) + Dummies(data, CategoricalColumns)
  }

  /** The cells the model can name an indicator column after: get_dummies drops
      a None or NaN cell and raises on an unhashable one, which Other covers. */
  predicate EncodableCategoricals(data: Row) {
    forall col :: col in CategoricalColumns && HasColumn(data, col) ==> !Lookup(data, col).Other?
  }

  /** preprocess_input: for each categorical column in turn, if the frame has
      it, append its indicator column and drop the original. */
  method PreprocessInput(data: Row) returns (df: Row)
    requires DistinctNames(data)
    requires EncodableCategoricals(data)
    ensures df == Encoded(data)
  {
    df := data;
    WithoutNothing(data);
    for k := 0 to |CategoricalColumns|
      invariant df == Without(data, CategoricalColumns[..k]) + Dummies(data, CategoricalColumns[..k])
    {
      var col := CategoricalColumns[k];
      EncodeStep(data, CategoricalColumns[..k], col);
      assert CategoricalColumns[..k + 1] == CategoricalColumns[..k] + [col];
      if HasColumn(df, col) {
        var dummies := GetDummies(col, Lookup(df, col));
        df := df + dummies;
        df := Without(df, [col]);
      }
    }
    assert CategoricalColumns[..|CategoricalColumns|] == CategoricalColumns;
  }

  /** One pass of the loop, for a categorical column `col` not handled yet: the
      frame built so far has `col` exactly when the record does, with the
      record's value, and appending its indicator and dropping `col` extends
      the frame to the one for `cols + [col]`. */
  lemma EncodeStep(data: Row, cols: seq<string>, col: string)
    requires forall c :: c in cols ==> c in CategoricalColumns
    requires col in CategoricalColumns && col !in cols
    ensures var df := Without(data, cols) + Dummies(data, cols);
      && (HasColumn(df, col) <==> HasColumn(data, col))
      && (HasColumn(data, col) ==>
            && Lookup(df, col) == Lookup(data, col)
            && Without(df + GetDummies(col, Lookup(df, col)), [col])
               == Without(data, cols + [col]) + Dummies(data, cols + [col]))
      && (!HasColumn(data, col) ==>
            df == Without(data, cols + [col]) + Dummies(data, cols + [col]))
  {
    var kept, added := Without(data, cols), Dummies(data, cols);
    assert (cols + [col])[..|cols|] == cols;
    DummiesNotCategorical(data, cols, col);
    HasColumnAppend(kept, added, col);
    HasColumnWithout(data, cols, col);
    WithoutThenDrop(data, cols, col);
    if HasColumn(data, col) {
      LookupWithout(data, cols, col);
      var dummies := GetDummies(col, Lookup(data, col));
      WithoutAppend(kept + added, dummies, [col]);
      WithoutAppend(kept, added, [col]);
      WithoutAbsent(added, col);
      assert DummyName(col, Lookup(data, col)) != col by {
        DummyNameNotCategorical(col, Lookup(data, col), col);
      }
      WithoutAbsent(dummies, col);
    } else {
      WithoutAbsent(kept, col);
    }
  }

  lemma {:induction false} WithoutNothing(row: Row)
    ensures Without(row, []) == row
  {
    if |row| > 0 {
      WithoutNothing(row[1..]);
    }
  }

  lemma {:induction false} HasColumnAppend(a: Row, b: Row, col: string)
    ensures HasColumn(a + b, col) <==> HasColumn(a, col) || HasColumn(b, col)
    ensures HasColumn(a, col) ==> Lookup(a + b, col) == Lookup(a, col)
    ensures !HasColumn(a, col) && HasColumn(b, col) ==> Lookup(a + b, col) == Lookup(b, col)
  {
    if |a| > 0 {
      assert (a + b)[1..] == a[1..] + b;
      HasColumnAppend(a[1..], b, col);
    } else {
      assert a + b == b;
    }
  }

  lemma {:induction false} WithoutAppend(a: Row, b: Row, cols: seq<string>)
    ensures Without(a + b, cols) == Without(a, cols) + Without(b, cols)
  {
    if |a| > 0 {
      assert (a + b)[1..] == a[1..] + b;
      WithoutAppend(a[1..], b, cols);
    } else {
      assert a + b == b;
    }
  }

  /** Dropping a column the frame does not have changes nothing. */
  lemma {:induction false} WithoutAbsent(row: Row, col: string)
    requires !HasColumn(row, col)
    ensures Without(row, [col]) == row
  {
    if |row| > 0 {
      WithoutAbsent(row[1..], col);
    }
  }

  /** Removing the columns `cols` and then the column `col` is removing `cols + [col]`. */
  lemma {:induction false} WithoutThenDrop(row: Row, cols: seq<string>, col: string)
    ensures Without(Without(row, cols), [col]) == Without(row, cols + [col])
  {
    if |row| > 0 {
      WithoutThenDrop(row[1..], cols, col);
      var head := if row[0].name in cols then [] else [row[0]];
      WithoutAppend(head, Without(row[1..], cols), [col]);
    }
  }

  /** Removing other columns neither hides nor changes the column `col`. */
  lemma {:induction false} HasColumnWithout(row: Row, cols: seq<string>, col: string)
    ensures HasColumn(Without(row, cols), col) ==> HasColumn(row, col)
    ensures col !in cols ==> (HasColumn(Without(row, cols), col) <==> HasColumn(row, col))
  {
    if |row| > 0 {
      HasColumnWithout(row[1..], cols, col);
      var head := if row[0].name in cols then [] else [row[0]];
      HasColumnAppend(head, Without(row[1..], cols), col);
    }
  }

  lemma {:induction false} LookupWithout(row: Row, cols: seq<string>, col: string)
    requires col !in cols && HasColumn(row, col)
    ensures HasColumn(Without(row, cols), col)
    ensures Lookup(Without(row, cols), col) == Lookup(row, col)
  {
    HasColumnWithout(row, cols, col);
    var head := if row[0].name in cols then [] else [row[0]];
    HasColumnAppend(head, Without(row[1..], cols), col);
    if row[0].name != col {
      LookupWithout(row[1..], cols, col);
    }
  }

  /** An indicator column is never named like a categorical column: its name
      is longer than its own column's and starts like no other one. */
  lemma DummyNameNotCategorical(col: string, v: PyValue, other: string)
    requires col in CategoricalColumns && other in CategoricalColumns
    ensures DummyName(col, v) != other
  {
    var name := DummyName(col, v);
    assert name[0] == col[0];
    assert |name| > |col|;
  }

  /** The indicator columns built for categorical columns carry no
      categorical column's name. */
  lemma {:induction false} DummiesNotCategorical(data: Row, cols: seq<string>, other: string)
    requires forall c :: c in cols ==> c in CategoricalColumns
    requires other in CategoricalColumns
    ensures !HasColumn(Dummies(data, cols), other)
  {
    if |cols| > 0 {
      var last := cols[|cols| - 1];
      DummiesNotCategorical(data, cols[..|cols| - 1], other);
      if HasColumn(data, last) {
        DummyNameNotCategorical(last, Lookup(data, last), other);
      }
      HasColumnAppend(Dummies(data, cols[..|cols| - 1]), DummiesFor(data, last), other);
    }
  }

  /** Dropping a column that a frame with distinct names has removes exactly one column. */
  lemma {:induction false} DropOnce(row: Row, col: string)
    requires DistinctNames(row)
    ensures |Without(row, [col])| == if HasColumn(row, col) then |row| - 1 else |row|
  {
    if |row| > 0 {
      if row[0].name == col {
        WithoutAbsent(row[1..], col);
      } else {
        DropOnce(row[1..], col);
      }
    }
  }

  /** Removing columns keeps the names distinct. */
  lemma {:induction false} WithoutDistinct(row: Row, cols: seq<string>)
    requires DistinctNames(row)
    ensures DistinctNames(Without(row, cols))
  {
    if |row| > 0 {
      WithoutDistinct(row[1..], cols);
      var rest := Without(row[1..], cols);
      if row[0].name !in cols {
        HasColumnWithout(row[1..], cols, row[0].name);
        assert Without(row, cols) == [row[0]] + rest;
        assert ([row[0]] + rest)[1..] == rest;
      } else {
        assert Without(row, cols) == rest;
      }
    }
  }

  /** The columns of a frame without `cols` are exactly its columns whose
      names are not in `cols`. */
  lemma {:induction false} WithoutMembers(row: Row, cols: seq<string>, e: Entry)
    ensures e in Without(row, cols) <==> e in row && e.name !in cols
  {
    if |row| > 0 {
      WithoutMembers(row[1..], cols, e);
      assert row == [row[0]] + row[1..];
    }
  }

  /** After handling the first `k` categorical columns the frame still has as
      many columns as the record: each one dropped is replaced by one indicator. */
  lemma {:induction false} EncodedPrefixCount(data: Row, k: nat)
    requires DistinctNames(data) && k <= |CategoricalColumns|
    ensures |Without(data, CategoricalColumns[..k])| + |Dummies(data, CategoricalColumns[..k])| == |data|
  {
    if k == 0 {
      WithoutNothing(data);
    } else {
      var cols, col := CategoricalColumns[..k - 1], CategoricalColumns[k - 1];
      EncodedPrefixCount(data, k - 1);
      assert CategoricalColumns[..k] == cols + [col];
      assert (cols + [col])[..k - 1] == cols;
      assert col !in cols;
      WithoutThenDrop(data, cols, col);
      WithoutDistinct(data, cols);
      HasColumnWithout(data, cols, col);
      DropOnce(Without(data, cols), col);
    }
  }

  /** preprocess_input keeps the column count: every categorical column present
      is replaced by exactly one indicator column. */
  lemma EncodedColumnCount(data: Row)
    requires DistinctNames(data)
    ensures |Encoded(data)| == |data|
  {
    EncodedPrefixCount(data, |CategoricalColumns|);
    assert CategoricalColumns[..|CategoricalColumns|] == CategoricalColumns;
  }

  /** None of the three categorical columns survives preprocess_input. */
  lemma EncodedDropsCategorical(data: Row, col: string)
    requires col in CategoricalColumns
    ensures !HasColumn(Encoded(data), col)
  {
    var kept := Without(data, CategoricalColumns);
    HasColumnAppend(kept, Dummies(data, CategoricalColumns), col);
    DummiesNotCategorical(data, CategoricalColumns, col);
    if HasColumn(kept, col) {
      HasColumnKept(data, CategoricalColumns, col);
    }
  }

  /** A column named in `cols` is not left in the frame without `cols`. */
  lemma {:induction false} HasColumnKept(row: Row, cols: seq<string>, col: string)
    requires col in cols
    ensures !HasColumn(Without(row, cols), col)
  {
    if |row| > 0 {
      HasColumnKept(row[1..], cols, col);
      var head := if row[0].name in cols then [] else [row[0]];
      HasColumnAppend(head, Without(row[1..], cols), col);
    }
  }

  /** The result begins with exactly the record's non-categorical columns, in
      their original order: the frame up to the first indicator is the record
      filtered, and a column is among them just when the record has it and its
      name is not categorical. */
  lemma EncodedLeadingColumns(data: Row, e: Entry)
    ensures var lead := Encoded(data)[..|Without(data, CategoricalColumns)|];
      && lead == Without(data, CategoricalColumns)
      && (e in lead <==> e in data && e.name !in CategoricalColumns)
  {
    WithoutMembers(data, CategoricalColumns, e);
  }

  /** Every non-categorical column of the record is still in the result, with
      its value. */
  lemma EncodedKeepsOthers(data: Row, col: string)
    requires col !in CategoricalColumns && HasColumn(data, col)
    ensures HasColumn(Encoded(data), col) && Lookup(Encoded(data), col) == Lookup(data, col)
  {
    var kept := Without(data, CategoricalColumns);
    LookupWithout(data, CategoricalColumns, col);
    HasColumnAppend(kept, Dummies(data, CategoricalColumns), col);
  }

  /** The indicator columns come last, one per categorical column present, in
      the order gender, category_preference, price_range; a categorical column
      the record lacks is skipped. */
  lemma EncodedDummiesInOrder(data: Row)
    ensures Encoded(data)[|Without(data, CategoricalColumns)|..]
            == DummiesFor(data, "gender") + DummiesFor(data, "category_preference")
               + DummiesFor(data, "price_range")
    ensures forall col :: col in CategoricalColumns ==>
              (|DummiesFor(data, col)| == 1 <==> HasColumn(data, col))
    ensures forall col :: col in CategoricalColumns && HasColumn(data, col) ==>
              DummiesFor(data, col) == [Entry(col + "_" + ToStr(Lookup(data, col)), Bool(true))]
    ensures forall col :: col in CategoricalColumns && !HasColumn(data, col) ==>
              DummiesFor(data, col) == []
  {
    var c := CategoricalColumns;
    assert c[..2] == ["gender", "category_preference"] && c[..2][..1] == ["gender"];
    assert ["gender"][..0] == [];
    assert Dummies(data, ["gender"]) == DummiesFor(data, "gender");
    assert Dummies(data, c[..2]) == DummiesFor(data, "gender") + DummiesFor(data, "category_preference");
    assert Dummies(data, c) == Dummies(data, c[..2]) + DummiesFor(data, "price_range");
  }

  /** The service's sample request as a one-row frame, in its field order. */
  const SampleRecord: Row :=
    [Entry("user_id", Int(123)), Entry("age", Int(25)), Entry("gender", Str("M")),
     Entry("category_preference", Str("Electronics")), Entry("price_range", Str("Medium"))]

  /** Of the sample request, user_id and age are kept, in that order. */
  lemma SampleKeptColumns()
    ensures Without(SampleRecord, CategoricalColumns) == [Entry("user_id", Int(123)), Entry("age", Int(25))]
  {
    var data := SampleRecord;
    assert data[1..][1..][1..][1..][1..] == [];
  }

  /** The sample request's categorical fields become gender_M,
      category_preference_Electronics and price_range_Medium, in that order. */
  lemma SampleIndicators()
    ensures Dummies(SampleRecord, CategoricalColumns)
         == [Entry("gender_M", Bool(true)), Entry("category_preference_Electronics", Bool(true)),
             Entry("price_range_Medium", Bool(true))]
  {
    var data, c := SampleRecord, CategoricalColumns;
    assert HasColumn(data, "gender") && Lookup(data, "gender") == Str("M");
    assert HasColumn(data, "category_preference") && Lookup(data, "category_preference") == Str("Electronics");
    assert HasColumn(data, "price_range") && Lookup(data, "price_range") == Str("Medium");
    assert DummiesFor(data, "gender") == [Entry("gender_M", Bool(true))] by {
      assert "gender" + "_" + "M" == "gender_M";
    }
    assert DummiesFor(data, "category_preference") == [Entry("category_preference_Electronics", Bool(true))] by {
      assert "category_preference" + "_" + "Electronics" == "category_preference_Electronics";
    }
    assert DummiesFor(data, "price_range") == [Entry("price_range_Medium", Bool(true))] by {
      assert "price_range" + "_" + "Medium" == "price_range_Medium";
    }
    assert c[..2] == ["gender", "category_preference"] && c[..2][..1] == ["gender"];
    assert ["gender"][..0] == [];
    assert Dummies(data, ["gender"]) == DummiesFor(data, "gender");
    assert Dummies(data, c[..2]) == DummiesFor(data, "gender") + DummiesFor(data, "category_preference");
  }

  /** The sample request encodes to user_id, age, gender_M,
      category_preference_Electronics, price_range_Medium. */
  lemma SampleRequestEncoded()
    ensures Encoded(SampleRecord)
         == [Entry("user_id", Int(123)), Entry("age", Int(25)), Entry("gender_M", Bool(true)),
             Entry("category_preference_Electronics", Bool(true)),
             Entry("price_range_Medium", Bool(true))]
  {
    SampleKeptColumns();
    SampleIndicators();
  }

  // ---------------------------------------------------------------------
  // format_recommendations
  // ---------------------------------------------------------------------

  /** What the model hands over: a list or array of predictions, or a single
      prediction of any other type. */
  datatype Predictions = PredictionList(items: seq<PyValue>) | Scalar(item: PyValue)

  /** One recommendation. Confidences are in hundredths (75 is 0.75), so the
      two-decimal rounding of the source is exact. */
  datatype Recommendation =
    Recommendation(rank: int, productCategory: string, confidenceScore: int, reason: string)

  /** The formatted answer. */
  datatype Recommendations =
    Recommendations(totalRecommendations: int, recommendations: seq<Recommendation>, overallConfidence: int)

  const CategoryPrefix: string := "category_"
  const RecommendationReason: string := "Based on user preference analysis"

  /** The recommendation for the prediction at 0-based position `i`: rank i + 1,
      its category, and the confidence lowered by 0.10 per position. */
  function RankedEntry(i: nat, pred: PyValue, confidence: int): Recommendation {
    Recommendation(i + 1, CategoryPrefix + ToStr(pred), confidence - 10 * i, RecommendationReason)
  }

  /** format_recommendations: a single prediction is wrapped into a list, then
      each prediction in turn becomes the next recommendation. */
  method FormatRecommendations(predictions: Predictions, confidence: int) returns (r: Recommendations)
    ensures r.totalRecommendations == |r.recommendations|
    ensures r.overallConfidence == confidence
    ensures predictions.Scalar? ==>
              r.recommendations == [RankedEntry(0, predictions.item, confidence)]
    ensures predictions.PredictionList? ==>
              && |r.recommendations| == |predictions.items|
              && forall i :: 0 <= i < |r.recommendations| ==>
                   r.recommendations[i] == RankedEntry(i, predictions.items[i], confidence)
  {
    var preds := if predictions.PredictionList? then predictions.items else [predictions.item];
    var recommendations: seq<Recommendation> := [];
    for i := 0 to |preds|
      invariant |recommendations| == i
      invariant forall j :: 0 <= j < i ==> recommendations[j] == RankedEntry(j, preds[j], confidence)
    {
      recommendations := recommendations + [Recommendation(
        i + 1, CategoryPrefix + ToStr(preds[i]), confidence - i * 10, RecommendationReason)];
    }
    r := Recommendations(|recommendations|, recommendations, confidence);
  }

  /** What a list of recommendations built entry by entry promises: ranks run
      1, 2, 3, ... and strictly increase; each score is 0.10 below the one
      before, with no floor, so it goes below zero once 0.10 times the position
      exceeds the confidence; the category names the prediction after the
      prefix; the reason is the same for all. */
  lemma RankedEntries(preds: seq<PyValue>, confidence: int, recs: seq<Recommendation>)
    requires |recs| == |preds|
    requires forall i :: 0 <= i < |recs| ==> recs[i] == RankedEntry(i, preds[i], confidence)
    ensures |recs| > 0 ==> recs[0].rank == 1 && recs[0].confidenceScore == confidence
    ensures forall i, j :: 0 <= i < j < |recs| ==> recs[i].rank < recs[j].rank
    ensures forall i :: 0 < i < |recs| ==>
              recs[i].rank == recs[i - 1].rank + 1
              && recs[i].confidenceScore == recs[i - 1].confidenceScore - 10
    ensures forall i :: 0 <= i < |recs| ==> (recs[i].confidenceScore < 0 <==> confidence < 10 * i)
    ensures forall i :: 0 <= i < |recs| ==>
              |CategoryPrefix| <= |recs[i].productCategory|
              && recs[i].productCategory[..|CategoryPrefix|] == CategoryPrefix
              && recs[i].productCategory[|CategoryPrefix|..] == ToStr(preds[i])
              && recs[i].reason == RecommendationReason
  {
  }
}
