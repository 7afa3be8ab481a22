# Survey response filter: a Dafny model

This project models the query logic of a single-page survey explorer (`app.py`).
A table of pre-processed survey responses is narrowed by five categorical
selectors and by the Likert answers of two question groups: Q7, with nine
questions about the research process, and Q9, with two questions about future
intentions. For a chosen free-text column, the remaining rows are then shown as
numbered responses.

- `wrappers.dfy` (module `Wrappers`): `Option` and `Result`.
- `numbers.dfy` (module `Numbers`): the part of Python's `float()` that the
  filter uses, as `ParseFloat`. It parses a decimal literal into an exact
  `Decimal`. The module also has numeric equality between a stored integer and
  a parsed decimal (`EqualsInt`), and `str()` of an integer (`IntToString`).
- `survey.dfy` (module `Survey`): the data model. A `Row` carries its index
  label, its numeric cells and its free-text cells. A cell that is missing from
  a row's map is NaN. The module also holds the filter arguments (`Criteria`),
  the five label-to-code dictionaries (kept as `map`s that store `"Any"` with
  no code, exactly as the source does), and `Decode`, which models `dict.get`.
- `filter.dfy` (module `SurveyFilter`): the filter itself.
  - `Filter` and `FilterSpec` are the specification: the conjunction of
    equality predicates, applied to the table as an order-preserving selection.
  - `FilterData` is the procedure as the source writes it. It starts from the
    whole table and runs three loops. Each loop reassigns the working table
    once per active selector. Its postcondition equates its result with
    `FilterSpec`.
  - The lemmas state what the result is: subsequence, membership, NaN cells,
    idempotence, order independence, the all-"Any" case, and when and with
    which answer the call raises.
- `responses.dfy` (module `Responses`): the projection at line 90. Each row
  becomes `"Response {idx + 1}: {row[q]}"`, where `idx` is the row's index
  label, and the entries are joined with blank lines.

Behaviours of `app.py` that a caller might not expect, which the model keeps:
- An unknown category label imposes no constraint. It does not raise an error,
  because `dict.get` returns `None`.
- The age labels are `"20-25 years old"`, `"26-40 years old"` and
  `"41+ years old"`.
- A response is numbered by its row's original index label plus one, not by its
  position in the filtered result. `NumberedByTablePosition` states this.
- No check is made that a projected column is one of the known free-text
  columns.

## Model

| member | source | states |
|---|---|---|
| `Survey.DecodeConstrains` | app.py:37-44 | a selector yields a code exactly when its label is a key of its dictionary other than "Any"; "Any" and every unknown label yield None, so they add no filter and raise nothing |
| `Survey.DecodeDistinct` | app.py:37-43 | within each of the five dictionaries, two labels that yield a code yield different codes |
| `Numbers.IntToStringParses` | app.py:52 | float() of the decimal text of any integer gives back exactly that integer, which covers the offered answers "1" to "5" |
| `Numbers.EqualsIntIff` | app.py:52 | a stored integer equals a parsed number exactly when the number is whole and has that value, so "3.0" matches 3 and "3.5" matches nothing |
| `Numbers.NatToStringRoundTrip` | app.py:90 | the digits written for a response number read back as that number |
| `SurveyFilter.FilterData` | app.py:33-58 | the three loops, each reassigning the working table once per active selector, return exactly FilterSpec: the error of the first bad Likert answer, or the table narrowed by every active predicate |
| `SurveyFilter.FilterNoConstraints` | app.py:34 | with no active predicate the result is the whole table, unchanged |
| `SurveyFilter.FilterCompose` | app.py:46-56 | narrowing by one set of predicates and then by another equals narrowing once by both |
| `SurveyFilter.FilterMembership` | app.py:46-56 | a row is in the result iff it is in the table and satisfies every predicate |
| `SurveyFilter.FilterPositions` | app.py:46-56 | the result is the table's rows at a strictly increasing list of positions, which are exactly the positions of the rows that satisfy every predicate: no row invented, reordered or wrongly dropped |
| `SurveyFilter.FilterCommutes` | app.py:46-56 | applying two groups of predicates in either order gives the same result |
| `SurveyFilter.FilterIdempotent` | app.py:46-56 | narrowing the result again by the same predicates returns it unchanged |
| `SurveyFilter.FilterConjunction` | app.py:46-56 | a row survives predicates a and b together iff it survives a alone and b alone |
| `SurveyFilter.NeverKeepsMissing` | app.py:46-56 | a row whose cell in a constrained column is NaN is never kept |
| `SurveyFilter.CodeConstraintsMeaning` | app.py:46-48 | the categorical predicates hold of a row iff each decoded code equals the row's cell in that column |
| `SurveyFilter.LikertConstraintsOk` | app.py:50-56 | a Likert group yields predicates iff none of its answers is both different from "Any" and rejected by float() |
| `SurveyFilter.LikertConstraintsMeaning` | app.py:50-56 | a group's predicates hold of a row iff each of its answers is "Any" or a number equal to the row's cell |
| `SurveyFilter.LikertConstraintsError` | app.py:50-56 | a failing group fails with the question and answer of its first answer that float() rejects |
| `SurveyFilter.LikertErrorPersists` | app.py:50-56 | once an answer has raised, the answers after it cannot change the outcome |
| `SurveyFilter.FilterSpecFails` | app.py:50-56 | the call raises iff some Q7 or Q9 answer is neither "Any" nor a number, whatever the table holds; the error names the first such answer, Q7 before Q9 |
| `SurveyFilter.ConstraintsMeaning` | app.py:37-56 | the predicates built from the criteria hold of a row iff the row meets every selector (MeetsCriteria) |
| `SurveyFilter.FilterSpecSelects` | app.py:33-58 | a successful result is the subsequence of the table at exactly the positions of the rows that meet the criteria, in table order, with their index labels |
| `SurveyFilter.FilterSpecIdempotent` | app.py:33-58 | filtering the result again with the same arguments returns the same result |
| `SurveyFilter.UnconstrainedKeepsAll` | app.py:37-56 | when no selector decodes to a code and every Likert answer is "Any", the result is the whole table |
| `SurveyFilter.AnyAddsNothing` | app.py:50-56 | a group whose answers are all "Any" adds no predicate |
| `SurveyFilter.IntegerAnswerHolds` | app.py:52 | the answer str(n) keeps exactly the rows whose cell holds n |
| `SurveyFilter.OfferedChoicesNeverFail` | app.py:50-56 | when every Q7 and Q9 answer is one of "Any", "1" to "5" (the selectors' options), the call never raises |
| `Responses.Entries` | app.py:80-90 | one entry per filtered row, in row order, so the entry count equals the number of responses shown |
| `Responses.ResponsesText` | app.py:90 | an empty result gives the empty string |
| `Responses.JoinAppend` | app.py:90 | joining one more entry appends the separator and that entry |
| `Responses.ResponsesAppend` | app.py:90 | one row gives its entry alone, and each further row adds "\n\n" and its own entry at the end |
| `Responses.EntryRoundTrip` | app.py:90 | an entry reads back as the row's index label plus one and the row's cell text, whatever that text contains |
| `Responses.NumberedByTablePosition` | app.py:90 | for a table indexed 0, 1, 2, ..., the k-th entry of a filtered result is numbered one more than the table position of the k-th row that meets the criteria, not k + 1 |

## Left out

- The Streamlit interface (app.py:61-91, apart from line 90) is left out: page
  title, sidebar selectors, buttons, `st.write`, `st.dataframe` and
  `st.text_area`. It only renders. The selectors' option lists appear only as
  the premise of `OfferedChoicesNeverFail`.
- `load_data` and `@st.cache_data` (app.py:6-12) are left out. They are file
  I/O and framework caching. The table is a given, immutable parameter.
- The descriptions in `q7_labels` and `q9_labels` are left out, because they
  are only selector captions. The question keys are kept (`Q7Questions`,
  `Q9Questions`).
- `KeyError` is not modelled. Pandas raises it when a constrained column or the
  projected column is absent from the file. The model reads an absent column as
  NaN in every row.
- Numbers.ParseFloat: accepts only an optional sign, digits and one decimal
  point, with ASCII digits. Python's float() also accepts surrounding
  whitespace, exponents, underscores between digits, the spellings of infinity
  and NaN, and non-ASCII Unicode decimal digits such as "３" or "٣". The model
  treats those strings, and every other string float() accepts beyond its
  grammar, as errors.
- Float64 storage and rounding are not modelled. Cells are integers, and the
  comparison with a parsed number is exact. Python compares through binary
  floating point, so a decimal literal with more than about 16 significant
  digits can compare differently.
- Text cells are formatted only as strings, or as "nan" when missing. The
  f-string rendering of a numeric column used as a response column is not
  modelled.
