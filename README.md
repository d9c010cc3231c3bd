# ModelServeAI request helpers in Dafny

This project models `app/utils.py` of ModelServeAI, a small recommendation service. The module has three helpers:

- `validate_input` checks an incoming request record against the user schema. The schema has five required fields: a non-negative int `user_id`, an int `age` from 18 to 100, and `gender`, `category_preference` and `price_range`, each from a fixed list.
- `preprocess_input` turns the record into a one-row feature frame. It one-hot expands the three categorical fields.
- `format_recommendations` turns model predictions and a confidence into a ranked recommendation list.

The model has two modules:

- `PyValues` (`pyvalues.dfy`) holds the little Python semantics the helpers rely on. A value is an int, a bool, a str, or some other value carried with its `str()` text. `isinstance(v, int)` also accepts bools. A comparison with an int operand (as at app/utils.py:37 and :40) raises `TypeError` when the other operand is not an int or a bool. `str()` of ints and bools is defined.
- `Utils` (`utils.dfy`) holds the three helpers. Each one follows the form of the source:
  - `ValidateInput` is a pure function. It takes its checks in the source's order, and the loop over the required fields is the recursive `AllPresent`. It returns an `Eval<bool>`, which is either a value or a raised exception. This makes "the validator never raises" a statement that can be proved. The function is proved equal to an independent field-by-field schema, `IsUserInput`.
  - `PreprocessInput` is a method with the source's loop over the three categorical columns. Each pass appends the indicator column and drops the original. A frame is a sequence of (name, cell) columns in dict insertion order. The method is proved to return `Encoded(data)`, a one-line description of the whole frame: the other columns, then the indicators. The lemmas about `Encoded` state what the frame contains.
  - `FormatRecommendations` is a method with the source's `enumerate` loop. Its loop invariant describes the prefix of recommendations built so far. Confidences are integer hundredths, so `round(confidence - i * 0.1, 2)` becomes `confidence - 10 * i`.

Three consequences of the code are worth stating:

- There is one indicator column per value actually present in the record, not one per possible value. The set of columns therefore depends on the record.
- A categorical column missing from the record is skipped without error.
- Recommendation scores have no floor. A score goes negative once 0.10 times its 0-based position exceeds the confidence.

## Model

| member | source | states |
|---|---|---|
| PyValues.AsNumber | app/utils.py:37-40 | a value takes part in an integer comparison without raising exactly when `isinstance(v, int)` (the predicate `IsInstanceInt`) holds, so ints and bools pass and strs and other values raise |
| PyValues.Compare | app/utils.py:37-40 | a comparison with an int operand (as at app/utils.py:37 and :40), `a < b` or `a <= b`, yields a truth value exactly when both operands are ints or bools, and raises TypeError otherwise |
| PyValues.NatToStr | app/utils.py:19 | the decimal text of a natural number is a non-empty string of digits with no leading zero |
| PyValues.NatToStrRoundTrip | app/utils.py:19 | reading the digits of that text back gives the number |
| PyValues.IntToStr | app/utils.py:63 | `str(n)` of an int is a minus sign exactly when n is negative, then at least one digit with no leading zero (never "-0" or "007"), and `int(str(n)) == n` |
| PyValues.IntToStrInjective | app/utils.py:63 | different ints get different `str()` text, so different predictions get different category names |
| PyValues.ToStr | app/utils.py:63 | `str(v)`: an int's text reads back as that int, a bool gives "True" or "False", a str is itself |
| Utils.AllPresent | app/utils.py:30-34 | the early-exit loop over the required fields succeeds exactly when every field listed is a key of the record |
| Utils.ValidateInput | app/utils.py:28-52 | validate_input never raises on any record, because each isinstance test guards its comparison; it returns True if and only if all five fields are present, user_id is an int >= 0 (a bool counts), age is an int in [18, 100], gender is "M" or "F", category_preference is one of the four categories and price_range one of the three ranges; each `v in [...]` test (the predicate `InStrList`) holds only for a str equal to a listed literal |
| Utils.MissingFieldRejected | app/utils.py:30-34 | a record missing any one of the five required fields is rejected |
| Utils.ExtraFieldsIgnored | app/utils.py:30-52 | two records that agree on the five required fields get the same verdict, whatever other fields they carry |
| Utils.SampleRequestAccepted | tests/test_main.py:18-24 | the service's sample request record is accepted |
| Utils.BadAgeRejected | app/utils.py:40-41 | replacing the age of a valid record by 5, or by the str "25", makes it invalid |
| Utils.BoolAsInt | app/utils.py:37-41 | True is accepted as a user id (it is the int 1) but no bool is an acceptable age |
| Utils.PreprocessInput | app/utils.py:8-23 | the frame returned is exactly the record's non-categorical columns in order, followed by one indicator column per categorical column present, in the order gender, category_preference, price_range |
| Utils.HasColumnIndex | app/utils.py:18 | `col in df.columns` holds exactly when some column of the frame is named col |
| Utils.LookupFound | app/utils.py:19 | `df[col]` is the cell of a column named col, and on a frame with distinct names the cell of the only such column |
| Utils.Without | app/utils.py:21 | dropping columns never adds a column; which columns stay, and in what order, is stated by WithoutMembers and WithoutAppend |
| Utils.EncodeStep | app/utils.py:17-21 | one loop pass: `col in df.columns` holds exactly when the record has col, `df[col]` is the record's value, and concat-then-drop extends the frame by that column's indicator while removing col |
| Utils.DummyNameNotCategorical | app/utils.py:19 | an indicator column named by `DummyName`, `<col>_<str(value)>`, never has the name of one of the three categorical columns, so a later drop cannot remove it |
| Utils.DummiesNotCategorical | app/utils.py:17-21 | the indicator columns appended so far carry no categorical column's name |
| Utils.WithoutMembers | app/utils.py:21 | dropping columns keeps exactly the columns whose names are not dropped |
| Utils.WithoutAppend | app/utils.py:20-21 | dropping a column from a concatenation drops it from each part, so the kept columns keep their relative order |
| Utils.DropOnce | app/utils.py:21 | dropping a column from a frame with distinct names removes one column if the frame has it and none otherwise |
| Utils.WithoutDistinct | app/utils.py:11 | dropping columns from a frame built from a dict keeps its column names distinct |
| Utils.EncodedPrefixCount | app/utils.py:17-21 | after any number of loop passes the frame has as many columns as the record |
| Utils.EncodedColumnCount | app/utils.py:8-23 | preprocess_input returns as many columns as the record has fields |
| Utils.EncodedDropsCategorical | app/utils.py:17-21 | none of gender, category_preference, price_range is a column of the result |
| Utils.EncodedLeadingColumns | app/utils.py:11-21 | the result starts with the record filtered of its categorical columns, in their original order; a column is among them exactly when the record has it and its name is not categorical |
| Utils.EncodedKeepsOthers | app/utils.py:11 | every non-categorical column of the record is a column of the result with the same value |
| Utils.EncodedDummiesInOrder | app/utils.py:14-21 | the result ends with the indicators for gender, category_preference, price_range in that order; each present column gives exactly one indicator (`GetDummies` on its cell), named `<col>_<str(value)>` by `DummyName` and set to True, and an absent one gives none (stated for both cases) |
| Utils.SampleKeptColumns | app/utils.py:21 | dropping the categorical columns from the sample request leaves user_id = 123 and age = 25, in that order |
| Utils.SampleIndicators | app/utils.py:17-20 | the indicators made by `GetDummies` for the sample request are gender_M, category_preference_Electronics and price_range_Medium, each True, named by `DummyName` |
| Utils.SampleRequestEncoded | app/utils.py:8-23 | the sample request encodes to user_id, age, gender_M, category_preference_Electronics, price_range_Medium |
| Utils.FormatRecommendations | app/utils.py:54-72 | a scalar prediction is wrapped into a one-element list; there is one recommendation per prediction and total_recommendations is their number; entry i has rank i + 1, category `category_<str(pred)>`, score confidence - 0.10 i and the fixed reason; overall_confidence is the input confidence |
| Utils.RankedEntries | app/utils.py:60-66 | ranks start at 1 and strictly increase by one; the first score is the confidence and each next one is exactly 0.10 lower, with no floor (negative exactly when 0.10 i exceeds the confidence); the category is the prefix followed by str(pred) |

## Left out

- `app/main.py` is not part of this model. It holds the web routes, the model loading at import time, the experiment-tracking calls, the metrics counters and the timestamps. These are I/O around foreign libraries, and main.py does not call these helpers. Its fallback prediction list is not modelled either.
- `app/predict.py` (training with an external ML library, random sample data, metric computation, model saving) and the HTTP-level tests are not part of this model.
- The `logger.error` call and re-raise in `preprocess_input` are logging only. No modelled step raises there.
- Floating point is not modelled. Confidences are integer hundredths, which is exact for confidences with at most two decimals, and IEEE rounding of `round(confidence - i * 0.1, 2)` is not modelled. No `PyValue` is a float.
- Utils.PreprocessInput: requires every categorical cell present to be an int, a bool or a str. pandas drops a None or NaN cell without making an indicator, and raises on an unhashable one (a list, a dict), so the model does not cover those.
- Utils.PreprocessInput: requires distinct column names. The input is a dict, so its keys are distinct.
- Indicator cells are the bool True. The dtype pandas gives the column (bool or uint8) is not modelled.
- A frame is a plain sequence of columns, so a duplicate column name (a record with its own `gender_M` field) simply stays a second column. pandas allows that too, and the model covers it.
- `v in [...]` on a list of str literals is modelled as str equality. An object with a custom `__eq__` is not modelled.
- Predictions: a list and a numpy array of one or more dimensions are both `PredictionList`. A 0-d numpy array passes the isinstance test, so it is not wrapped, and then `enumerate` raises TypeError on it. That raising case is not modelled. Any other value, a tuple included, is a `Scalar` and is wrapped, as the isinstance test does.
